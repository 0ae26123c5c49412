/**
 Strings as the modelled code has them: sequences of UTF-16 code units, compared unit by
 unit, and the decimal numerals of integers. A numeral is read back uniquely whatever
 follows it, which the JSON text of a number and the hashed sequence number rely on; the
 order of strings is total and transitive, which the sorting of object keys relies on.
 */
module Utf16 {
  import opened Prelude

  type Unit = u: int | 0 <= u < 0x1_0000
  type Text = seq<Unit>

  /** A program literal (Latin-1 characters only) as a string of code units. */
  function Lit(s: string): (t: Text)
    requires forall i :: 0 <= i < |s| ==> s[i] as int < 0x100
    ensures |t| == |s|
    ensures forall i :: 0 <= i < |s| ==> t[i] == s[i] as int
  {
    seq(|s|, i requires 0 <= i < |s| => s[i] as int)
  }

  predicate IsDigit(u: Unit) { 48 <= u <= 57 }

  // ---- decimal numerals ----

  function Digits(n: nat): (t: Text)
    ensures t != [] && forall i :: 0 <= i < |t| ==> IsDigit(t[i])
  {
    if n < 10 then [48 + n] else Digits(n / 10) + [48 + n % 10]
  }

  function Decimal(n: int): Text {
    if n < 0 then [45] + Digits(-n) else Digits(n)
  }

  function DigitsValue(t: Text): nat
    requires forall i :: 0 <= i < |t| ==> IsDigit(t[i])
  {
    if t == [] then 0
    else
      assert IsDigit(t[|t| - 1]);
      DigitsValue(t[..|t| - 1]) * 10 + (t[|t| - 1] as int - 48)
  }

  lemma {:induction false} DigitsValueOfDigits(n: nat)
    ensures DigitsValue(Digits(n)) == n
  {
    if n < 10 {
      var t: Text := [48 + n];
      assert t[..0] == [];
    } else {
      DigitsValueOfDigits(n / 10);
      var head := Digits(n / 10);
      assert Digits(n)[..|head|] == head;
    }
  }

  /** The numeral of a natural: no leading zero, and its value is read back. */
  lemma {:induction false} DigitsNumeral(n: nat)
    ensures DigitsValue(Digits(n)) == n && (|Digits(n)| > 1 ==> Digits(n)[0] != 48)
    ensures n > 0 ==> Digits(n)[0] != 48
  {
    DigitsValueOfDigits(n);
    if n >= 10 {
      DigitsNumeral(n / 10);
    }
  }

  /** Digits without a leading zero that have the value. */
  predicate IsNatural(t: Text, n: nat) {
    && t != [] && (forall i :: 0 <= i < |t| ==> IsDigit(t[i]))
    && (|t| > 1 ==> t[0] != 48) && DigitsValue(t) == n
  }

  lemma {:induction false} NaturalIsDigits(t: Text, n: nat)
    ensures IsNatural(t, n) <==> t == Digits(n)
  {
    DigitsNumeral(n);
    if IsNatural(t, n) {
      NumeralUnique(t, Digits(n), n);
    }
  }

  /** There is one numeral without a leading zero for each value. */
  lemma {:induction false} NumeralUnique(a: Text, b: Text, value: nat)
    requires IsNatural(a, value) && IsNatural(b, value)
    ensures a == b
    decreases |a|
  {
    var m, n := |a| - 1, |b| - 1;
    assert a == a[..m] + [a[m]] && b == b[..n] + [b[n]];
    assert IsDigit(a[m]) && IsDigit(b[n]);
    var v, w, x, y := DigitsValue(a[..m]), DigitsValue(b[..n]), a[m] as int - 48, b[n] as int - 48;
    assert v * 10 + x == w * 10 + y;
    assert v == w && x == y;
    LeadingIsPositive(a);
    LeadingIsPositive(b);
    if m > 0 && n > 0 {
      NumeralUnique(a[..m], b[..n], v);
    }
  }

  lemma {:induction false} LeadingIsPositive(a: Text)
    requires a != [] && forall i :: 0 <= i < |a| ==> IsDigit(a[i])
    ensures |a| > 1 && a[0] != 48 ==> DigitsValue(a[..|a| - 1]) > 0
    ensures a[0] != 48 ==> DigitsValue(a) > 0
  {
    if |a| > 1 {
      LeadingIsPositive(a[..|a| - 1]);
    } else {
      assert a[..0] == [];
    }
  }

  function LeadingDigits(t: Text): nat {
    if t == [] || !IsDigit(t[0]) then 0 else 1 + LeadingDigits(t[1..])
  }

  lemma {:induction false} LeadingDigitsOfNumeral(p: Text, x: Text)
    requires forall i :: 0 <= i < |p| ==> IsDigit(p[i])
    requires x == [] || !IsDigit(x[0])
    ensures LeadingDigits(p + x) == |p|
  {
    if p == [] {
      assert p + x == x;
    } else {
      LeadingDigitsOfNumeral(p[1..], x);
      assert (p + x)[1..] == p[1..] + x;
    }
  }

  /** A numeral followed by something that is not a digit is read back uniquely. */
  lemma {:induction false} DigitsUnambiguous(a: nat, b: nat, x: Text, y: Text)
    requires Digits(a) + x == Digits(b) + y
    requires x == [] || !IsDigit(x[0])
    requires y == [] || !IsDigit(y[0])
    ensures a == b && x == y
  {
    LeadingDigitsOfNumeral(Digits(a), x);
    LeadingDigitsOfNumeral(Digits(b), y);
    SplitEqual(Digits(a), x, Digits(b), y);
    DigitsValueOfDigits(a);
    DigitsValueOfDigits(b);
  }

  lemma {:induction false} DecimalSign(a: int)
    ensures Decimal(a) != [] && (Decimal(a)[0] == 45 <==> a < 0)
  {
    if a >= 0 {
      assert IsDigit(Digits(a)[0]);
    }
  }

  lemma {:induction false} DecimalUnambiguous(a: int, b: int, x: Text, y: Text)
    requires Decimal(a) + x == Decimal(b) + y
    requires x == [] || !IsDigit(x[0])
    requires y == [] || !IsDigit(y[0])
    ensures a == b && x == y
  {
    DecimalSign(a);
    DecimalSign(b);
    var p, q := Decimal(a), Decimal(b);
    assert p[0] == (p + x)[0] && q[0] == (q + y)[0];
    if a < 0 {
      var m: nat, n: nat := -a, -b;
      assert (p + x)[1..] == Digits(m) + x;
      assert (q + y)[1..] == Digits(n) + y;
      DigitsUnambiguous(m, n, x, y);
    } else {
      DigitsUnambiguous(a, b, x, y);
    }
  }

  // ---- code-unit order ----

  predicate TextLess(a: Text, b: Text) {
    b != [] && (a == [] || a[0] < b[0] || (a[0] == b[0] && TextLess(a[1..], b[1..])))
  }

  lemma {:induction false} TextLessTotal(a: Text, b: Text)
    ensures a == b || TextLess(a, b) || TextLess(b, a)
    ensures !(TextLess(a, b) && TextLess(b, a))
    ensures !TextLess(a, a)
  {
    if a != [] {
      TextLessTotal(a[1..], if b == [] then [] else b[1..]);
      if b != [] && a[0] == b[0] && a[1..] == b[1..] {
        assert a == [a[0]] + a[1..] && b == [b[0]] + b[1..];
      }
    }
  }

  lemma {:induction false} TextLessTransitive(a: Text, b: Text, c: Text)
    requires TextLess(a, b) && TextLess(b, c)
    ensures TextLess(a, c)
  {
    if a != [] && a[0] == b[0] && b[0] == c[0] {
      TextLessTransitive(a[1..], b[1..], c[1..]);
    }
  }
}
