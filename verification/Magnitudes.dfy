/** What a printed number is worth: its value alone decides whether it is printed with an exponent, whether it has a
    decimal point, and whether it is an integer. Stated over the reals, without reference to a layout. */
module Magnitudes {
  import opened Bytes
  import opened Text
  import opened Numerals

  function Abs(v: real): real { if v < 0.0 then -v else v }

  predicate IsWhole(v: real) { v.Floor as real == v }

  /** The value of a finite number. */
  function ValueOf(x: Num): real
    requires x.Finite?
  {
    Denotes(Numeral(x.neg, x.digits, x.n - |x.digits|))
  }

  // ---------------------------------------------------------------------------------------------
  // Powers of ten

  lemma {:induction false} TenToPositive(e: int)
    ensures TenTo(e) > 0.0
    decreases if e < 0 then -e else e
  {
    if e > 0 { TenToPositive(e - 1); } else if e < 0 { TenToPositive(e + 1); }
  }

  lemma {:induction false} TenToSum(a: int, b: int)
    ensures TenTo(a) * TenTo(b) == TenTo(a + b)
    decreases if a < 0 then -a else a
  {
    hide TenTo;
    TenToZero();
    if a > 0 {
      TenToSum(a - 1, b);
      TenToSucc(a - 1);
      TenToSucc(a - 1 + b);
      Regroup(TenTo(a - 1), TenTo(b));
    } else if a < 0 {
      TenToSum(a + 1, b);
      TenToSucc(a);
      TenToSucc(a + b);
      Regroup(TenTo(a), TenTo(b));
    }
  }

  lemma TenToZero()
    ensures TenTo(0) == 1.0
  {
  }

  lemma Regroup(x: real, y: real)
    ensures (10.0 * x) * y == 10.0 * (x * y)
  {
  }

  lemma {:induction false} TenToOrder(a: int, b: int)
    requires a <= b
    ensures TenTo(a) <= TenTo(b) && (a < b ==> TenTo(a) < TenTo(b))
    decreases b - a
  {
    hide TenTo;
    if a < b {
      TenToOrder(a, b - 1);
      TenToSucc(b - 1);
      TenToPositive(b - 1);
    }
  }

  lemma {:induction false} TenToWhole(e: nat)
    ensures IsWhole(TenTo(e))
  {
    if e > 0 {
      TenToWhole(e - 1);
      WholeInt(10 * TenTo(e - 1).Floor, TenTo(e));
    }
  }

  lemma WholeInt(k: int, v: real)
    requires k as real == v
    ensures v.Floor == k && IsWhole(v)
  {
  }

  // ---------------------------------------------------------------------------------------------
  // The value of digits

  lemma {:induction false} DigitsBelow(ds: seq<Digit>)
    ensures DigitsValue(ds) as real + 1.0 <= TenTo(|ds|)
  {
    if ds != [] { DigitsBelow(ds[..|ds| - 1]); }
  }

  lemma {:induction false} DigitsAtLeast(ds: seq<Digit>)
    requires ds != [] && ds[0] != 0
    ensures TenTo(|ds| - 1) <= DigitsValue(ds) as real
  {
    if |ds| > 1 {
      DigitsAtLeast(ds[..|ds| - 1]);
    } else {
      assert DigitsValue(ds[..0]) == 0;
    }
  }

  lemma Scale(a: real, b: real, t: real)
    requires a <= b && t > 0.0
    ensures a * t <= b * t && (a < b ==> a * t < b * t)
  {
  }

  /** Digits that start with a nonzero one lie between two powers of ten. */
  lemma Between(ds: seq<Digit>, n: int)
    requires ds != [] && ds[0] != 0
    ensures TenTo(n - 1) <= DigitsValue(ds) as real * TenTo(n - |ds|) < TenTo(n)
  {
    hide TenTo, DigitsValue;
    var d, t := DigitsValue(ds) as real, TenTo(n - |ds|);
    DigitsAtLeast(ds);
    DigitsBelow(ds);
    TenToPositive(n - |ds|);
    Scale(TenTo(|ds| - 1), d, t);
    Scale(d, TenTo(|ds|), t);
    TenToSum(|ds| - 1, n - |ds|);
    TenToSum(|ds|, n - |ds|);
  }

  lemma AbsDenotes(neg: bool, ds: seq<Digit>, e: int)
    ensures Abs(Denotes(Numeral(neg, ds, e))) == DigitsValue(ds) as real * TenTo(e)
  {
    hide TenTo, DigitsValue;
    TenToPositive(e);
    if DigitsValue(ds) > 0 { Scale(0.0, DigitsValue(ds) as real, TenTo(e)); }
  }

  /** Digits that end with a nonzero one stand for an integer exactly when no decimal place is left. */
  lemma WholeExactly(neg: bool, ds: seq<Digit>, e: int)
    requires ds != [] && ds[|ds| - 1] != 0
    ensures IsWhole(Denotes(Numeral(neg, ds, e))) <==> e >= 0
  {
    hide TenTo, DigitsValue;
    var v, d := Denotes(Numeral(neg, ds, e)), DigitsValue(ds);
    if e >= 0 {
      TenToWhole(e);
      var p := TenTo(e).Floor;
      RealProduct(d, p);
      WholeInt(if neg then -(d * p) else d * p, v);
    } else if IsWhole(v) {
      var m, k := -e, if neg then -v.Floor else v.Floor;
      assert k as real == d as real * TenTo(e);
      NotWhole(ds, m, k);
    }
  }

  lemma RealProduct(m: int, n: int)
    ensures (m * n) as real == m as real * n as real
  {
  }

  lemma NotWhole(ds: seq<Digit>, m: int, k: int)
    requires ds != [] && m > 0 && k as real == DigitsValue(ds) as real * TenTo(-m)
    ensures ds[|ds| - 1] == 0
  {
    hide TenTo, DigitsValue;
    var d := DigitsValue(ds);
    TenToSum(-m, m);
    TenToZero();
    Reassociate(d as real, TenTo(-m), TenTo(m));
    TenToWhole(m - 1);
    var p := TenTo(m - 1).Floor;
    TenToSucc(m - 1);
    RealProduct(k, 10 * p);
    assert d == k * (10 * p);
    TimesTen(k, p);
    LastDigit(ds);
  }

  lemma Reassociate(x: real, y: real, z: real)
    ensures x * y * z == x * (y * z)
  {
  }

  lemma TimesTen(k: int, p: int)
    ensures k * (10 * p) % 10 == 0
  {
    assert k * (10 * p) == 10 * (k * p);
  }

  lemma LastDigit(ds: seq<Digit>)
    requires ds != []
    ensures DigitsValue(ds) % 10 == ds[|ds| - 1]
  {
  }

  // ---------------------------------------------------------------------------------------------
  // Where the exponent starts

  lemma NoExponentIn(ds: seq<Digit>)
    ensures EXP !in Chars(ds)
  {
    hide Char;
    forall i | 0 <= i < |ds| ensures Chars(ds)[i] != EXP { }
  }

  lemma LayoutExponent(ds: seq<Digit>, n: int)
    requires ds != []
    ensures EXP in Layout(ds, n) <==> !(-6 < n <= 21)
  {
    hide Chars, Zeros, Layout, LayoutParts, FractionPart, ExponentPart;
    LayoutIsParts(ds, n);
    var (ints, frac, e) := LayoutParts(ds, n);
    NoExponentIn(ints);
    NoExponentIn(frac);
    PartsExponent(ds, n);
    assert EXP !in FractionPart(frac) by { NoExponentInFraction(frac); }
    assert EXP in ExponentPart(e) <==> e.Some? by { ExponentIn(e); }
  }

  lemma PartsExponent(ds: seq<Digit>, n: int)
    requires ds != []
    ensures LayoutParts(ds, n).2.Some? <==> !(-6 < n <= 21)
    ensures LayoutParts(ds, n).2.Some? ==> LayoutParts(ds, n) == (ds[..1], ds[1..], Some(n - 1))
  {
  }

  lemma NoExponentInFraction(ds: seq<Digit>)
    ensures EXP !in FractionPart(ds)
  {
    hide Chars;
    NoExponentIn(ds);
  }

  lemma ExponentIn(e: Option<int>)
    ensures EXP in ExponentPart(e) <==> e.Some?
  {
    if e.Some? { assert ExponentPart(e)[0] == EXP; }
  }

  lemma SignHasNone(neg: bool)
    ensures EXP !in Sign(neg)
  {
  }

  lemma SignIs(neg: bool)
    ensures Sign(neg) == if neg then [MINUS] else []
  {
  }

  /** Every formatted number, trailing zeros or not: no exponent exactly from 10^-6 on and below 10^21. */
  lemma PyExponentExactly(neg: bool, ds: seq<Digit>, exponent: int)
    requires ds != [] && ds[0] != 0
    ensures var v := Abs(Denotes(Numeral(neg, ds, exponent)));
      EXP !in PyFormat(neg, ds, exponent) <==> TenTo(-6) <= v < TenTo(21)
  {
    hide *;
    var n := exponent + |ds|;
    AbsDenotes(neg, ds, exponent);
    assert n - |ds| == exponent;
    Between(ds, n);
    PyFormatExponent(neg, ds, exponent);
    Decades(n, Abs(Denotes(Numeral(neg, ds, exponent))));
  }

  lemma PyFormatExponent(neg: bool, ds: seq<Digit>, exponent: int)
    requires ds != []
    ensures EXP in PyFormat(neg, ds, exponent) <==> !(-6 < exponent + |ds| <= 21)
  {
    hide Layout, Sign;
    LayoutExponent(ds, exponent + |ds|);
    SignHasNone(neg);
  }

  lemma Decades(n: int, v: real)
    requires TenTo(n - 1) <= v < TenTo(n)
    ensures TenTo(-6) <= v < TenTo(21) <==> -6 < n <= 21
  {
    hide TenTo;
    if n <= 21 { TenToOrder(n, 21); } else { TenToOrder(21, n - 1); }
    if n > -6 { TenToOrder(-6, n - 1); } else { TenToOrder(n, -6); }
  }

  lemma PrintIsPyFormat(x: Num)
    requires Valid(x) && x.Finite?
    ensures Print(x) == PyFormat(x.neg, x.digits, x.n - |x.digits|)
  {
  }

  /** A number is printed without an exponent exactly when its magnitude is at least 10^-6 and below 10^21. */
  lemma ExponentExactly(x: Num)
    requires Valid(x) && x.Finite?
    ensures EXP !in Print(x) <==> TenTo(-6) <= Abs(ValueOf(x)) < TenTo(21)
  {
    hide TenTo, Print, PyFormat, Denotes;
    PyExponentExactly(x.neg, x.digits, x.n - |x.digits|);
    PrintIsPyFormat(x);
  }

  // ---------------------------------------------------------------------------------------------
  // The two forms

  lemma {:induction false} DecimalHead(n: nat)
    ensures Decimal(n) == [0] || Decimal(n)[0] != 0
    ensures n > 0 ==> Decimal(n)[0] != 0
  {
    if n >= 10 { DecimalHead(n / 10); }
  }

  /** With an exponent: one nonzero digit, a point exactly when more digits follow, e, an explicit sign, and the
      exponent of the leading digit without leading zeros. */
  lemma ExponentForm(x: Num) returns (first: Digit, more: seq<Digit>, e: int, power: seq<Digit>)
    requires Valid(x) && x.Finite? && EXP in Print(x)
    ensures Print(x) == (if x.neg then [MINUS] else []) + [Char(first)]
      + (if more == [] then [] else [DOT] + Chars(more)) + [EXP, if e >= 0 then PLUS else MINUS] + Chars(power)
    ensures first != 0 && (more != [] ==> more[|more| - 1] != 0)
    ensures TenTo(e) <= Abs(ValueOf(x)) < TenTo(e + 1)
    ensures DigitsValue(power) == (if e >= 0 then e else -e) && power != [] && power[0] != 0
  {
    hide *;
    var ds, n := x.digits, x.n;
    ShortestEnds(x);
    PrintExponent(x);
    PartsExponent(ds, n);
    PrintParts(x);
    ExponentText(n - 1);
    ValueBetween(x);
    first, more, e := ds[0], ds[1..], n - 1;
    assert e + 1 == n;
    power := Decimal(if e >= 0 then e else -e);
    DecimalValue(if e >= 0 then e else -e);
    DecimalHead(if e >= 0 then e else -e);
    OneChar(ds);
    FractionText(more);
    Reassociated((if x.neg then [MINUS] else []) + [Char(first)] + FractionPart(more),
                 [EXP, if e >= 0 then PLUS else MINUS], Chars(power));
  }

  lemma Reassociated(a: JsString, b: JsString, c: JsString)
    ensures a + (b + c) == a + b + c
  {
  }

  lemma AbsValue(x: Num)
    requires x.Finite?
    ensures Abs(ValueOf(x)) == DigitsValue(x.digits) as real * TenTo(x.n - |x.digits|)
  {
    hide DigitsValue, TenTo, Denotes;
    AbsDenotes(x.neg, x.digits, x.n - |x.digits|);
  }

  lemma ValueBetween(x: Num)
    requires Valid(x) && x.Finite?
    ensures TenTo(x.n - 1) <= Abs(ValueOf(x)) < TenTo(x.n)
  {
    hide *;
    ShortestEnds(x);
    AbsValue(x);
    Between(x.digits, x.n);
  }

  lemma SignOfValue(x: Num)
    requires Valid(x) && x.Finite?
    ensures x.neg <==> ValueOf(x) < 0.0
  {
    hide DigitsValue, TenTo;
    ShortestEnds(x);
    TenToPositive(x.n - 1);
    Between(x.digits, x.n);
  }

  lemma FractionText(ds: seq<Digit>)
    ensures FractionPart(ds) == if ds == [] then [] else [DOT] + Chars(ds)
  {
  }

  lemma ShortestEnds(x: Num)
    requires Valid(x) && x.Finite?
    ensures Shortest(x.digits) && x.digits != [] && x.digits[0] != 0
    ensures x.digits[1..] != [] ==> x.digits[1..][|x.digits[1..]| - 1] != 0
    ensures x.digits[|x.digits| - 1] != 0
  {
  }

  lemma OneChar(ds: seq<Digit>)
    requires ds != []
    ensures Chars(ds[..1]) == [Char(ds[0])]
  {
  }

  lemma PrintParts(x: Num)
    requires Valid(x) && x.Finite?
    ensures var (ints, frac, e) := LayoutParts(x.digits, x.n);
      Print(x) == (if x.neg then [MINUS] else []) + Chars(ints) + FractionPart(frac) + ExponentPart(e)
  {
    hide *;
    ShortestEnds(x);
    LayoutIsParts(x.digits, x.n);
    PrintIs(x);
    var parts := LayoutParts(x.digits, x.n);
    var s: JsString := if x.neg then [MINUS] else [];
    Associate(s, Chars(parts.0), FractionPart(parts.1), ExponentPart(parts.2));
  }

  lemma PrintIs(x: Num)
    requires Valid(x) && x.Finite?
    ensures x.digits != []
    ensures Print(x) == (if x.neg then [MINUS] else []) + Layout(x.digits, x.n)
  {
    hide Layout;
  }

  lemma Associate(a: JsString, b: JsString, c: JsString, d: JsString)
    ensures a + (b + c + d) == a + b + c + d
  {
  }

  lemma ExponentText(e: int)
    ensures ExponentPart(Some(e)) ==
      [EXP, if e >= 0 then PLUS else MINUS] + Chars(Decimal(if e >= 0 then e else -e))
  {
    hide Chars, Decimal;
  }

  lemma PrintExponent(x: Num)
    requires Valid(x) && x.Finite?
    ensures EXP in Print(x) <==> !(-6 < x.n <= 21)
  {
    hide *;
    ShortestEnds(x);
    PrintIs(x);
    SignHasNone(x.neg);
    SignIs(x.neg);
    LayoutExponent(x.digits, x.n);
  }

  /** Without: integer digits with no leading zero, and a fraction with no trailing zero exactly when the value is
      not whole. */
  lemma PlainForm(x: Num) returns (ints: seq<Digit>, frac: seq<Digit>)
    requires Valid(x) && x.Finite? && EXP !in Print(x)
    ensures Print(x) ==
      (if x.neg then [MINUS] else []) + Chars(ints) + (if frac == [] then [] else [DOT] + Chars(frac))
    ensures ints != [] && (ints == [0] || ints[0] != 0)
    ensures frac == [] <==> IsWhole(ValueOf(x))
    ensures frac != [] ==> frac[|frac| - 1] != 0
    ensures Denotes(Numeral(x.neg, ints + frac, -|frac|)) == ValueOf(x)
  {
    hide *;
    var ds, n := x.digits, x.n;
    ShortestEnds(x);
    PrintExponent(x);
    PrintParts(x);
    WholeExactly(x.neg, ds, n - |ds|);
    var parts := LayoutParts(ds, n);
    ints, frac := parts.0, parts.1;
    PartsDenote(x.neg, ds, n);
    PlainParts(ds, n);
    FractionText(frac);
    NoExponentText();
    ValueIs(x);
  }

  lemma NoExponentText()
    ensures ExponentPart(None) == []
  {
  }

  lemma ValueIs(x: Num)
    requires x.Finite?
    ensures ValueOf(x) == Denotes(Numeral(x.neg, x.digits, x.n - |x.digits|))
  {
  }

  lemma PlainParts(ds: seq<Digit>, n: int)
    requires Shortest(ds) && -6 < n <= 21
    ensures var (ints, frac, e) := LayoutParts(ds, n);
      && e == None && ints != [] && (ints == [0] || ints[0] != 0)
      && (frac == [] <==> n >= |ds|) && (frac != [] ==> frac[|frac| - 1] != 0)
  {
  }

  lemma PartsDenote(neg: bool, ds: seq<Digit>, n: int)
    requires ds != []
    ensures var (ints, frac, e) := LayoutParts(ds, n);
      Denotes(Numeral(neg, ints + frac, (if e.Some? then e.value else 0) - |frac|))
        == Denotes(Numeral(neg, ds, n - |ds|))
  {
    hide Layout, Read, TenTo, DigitsValue;
    PyFormatDenotes(neg, ds, n - |ds|);
    ReadLayout(neg, ds, n, []);
    assert Sign(neg) + Layout(ds, n) + [] == PyFormat(neg, ds, n - |ds|);
  }

  /** Two numbers beyond the bounds, as they are printed. */
  lemma Samples()
    ensures Print(Finite(false, [1], -6)) == Lit("1e-7")
    ensures Print(Finite(true, [1, 2, 5], 22)) == Lit("-1.25e+21")
  {
    hide Print, Chars, Decimal, Layout, LayoutParts, FractionPart, ExponentPart, Lit;
    PrintParts(Finite(false, [1], -6));
    PrintParts(Finite(true, [1, 2, 5], 22));
    PartsExponent([1], -6);
    PartsExponent([1, 2, 5], 22);
    FractionText([]);
    FractionText([2, 5]);
    ExponentText(-7);
    ExponentText(21);
    SampleDigits();
    SampleTexts();
    assert [1][..1] == [1] && [1][1..] == [] && [1, 2, 5][..1] == [1] && [1, 2, 5][1..] == [2, 5];
  }

  lemma SampleDigits()
    ensures Decimal(7) == [7] && Decimal(21) == [2, 1]
    ensures Chars([1]) == [49] && Chars([7]) == [55] && Chars([2, 5]) == [50, 53] && Chars([2, 1]) == [50, 49]
  {
  }

  lemma SampleTexts()
    ensures Lit("1e-7") == [49, EXP, MINUS, 55]
    ensures Lit("-1.25e+21") == [MINUS, 49, DOT, 50, 53, EXP, PLUS, 50, 49]
  {
  }
}
