/** Number printing: the digit layout of Number::toString (section 7.1.12.1 of ECMA-262), which RFC 8785 makes
    canonical, the Python formatter that reproduces it, and a reader that inverts both. */
module Numerals {
  import opened Bytes

  type Digit = d: nat | d < 10

  /** A number as its shortest round-tripping digits: 0.d1 d2 ... * 10^n. */
  datatype Num = NaN | Infinite(neg: bool) | Zero(neg: bool) | Finite(neg: bool, digits: seq<Digit>, n: int)

  predicate Shortest(ds: seq<Digit>) {
    ds != [] && ds[0] != 0 && ds[|ds| - 1] != 0
  }

  predicate Valid(x: Num) {
    x.Finite? ==> Shortest(x.digits)
  }

  // ---------------------------------------------------------------------------------------------
  // Printing

  function Zeros(k: nat): (ds: seq<Digit>)
    ensures |ds| == k && forall i :: 0 <= i < k ==> ds[i] == 0
  {
    seq(k, i => 0)
  }

  function Chars(ds: seq<Digit>): (s: JsString)
    ensures |s| == |ds|
  {
    seq(|ds|, i requires 0 <= i < |ds| => Char(ds[i]))
  }

  function Char(d: Digit): (u: Unit)
    ensures IsDigit(u) && u as int == 48 + d as int
  {
    var v: nat := d;
    48 + v
  }

  /** Decimal digits of n without leading zeros. */
  function Decimal(n: nat): (ds: seq<Digit>)
    ensures ds != []
  {
    if n < 10 then [n] else
      var d: Digit := n % 10;
      Decimal(n / 10) + [d]
  }

  const DOT: Unit := 46
  const MINUS: Unit := 45
  const PLUS: Unit := 43
  const EXP: Unit := 101
  const ZERO: Unit := 48

  /** The four layouts of the digits ds with the decimal point after position n. */
  function Layout(ds: seq<Digit>, n: int): JsString
    requires ds != []
  {
    var k := |ds|;
    if k <= n <= 21 then Chars(ds + Zeros(n - k))
    else if 0 < n <= 21 then Chars(ds[..n]) + [DOT] + Chars(ds[n..])
    else if -6 < n <= 0 then [ZERO, DOT] + Chars(Zeros(-n) + ds)
    else
      var e := n - 1;
      (if k == 1 then Chars(ds) else Chars(ds[..1]) + [DOT] + Chars(ds[1..]))
      + [EXP, if e >= 0 then PLUS else MINUS] + Chars(Decimal(if e >= 0 then e else -e))
  }

  function Sign(neg: bool): JsString { if neg then [MINUS] else [] }

  /** JSON.stringify of a number; "null" for the values that are not finite. */
  function Print(x: Num): JsString
    requires Valid(x)
  {
    match x
    case Zero(_) => [ZERO]
    case Finite(neg, ds, n) => Sign(neg) + Layout(ds, n)
    case _ => [110, 117, 108, 108]
  }

  // ---------------------------------------------------------------------------------------------
  // Reading

  predicate IsDigit(u: Unit) { 48 <= u <= 57 }

  /** The digits a string starts with. */
  function Take(s: JsString): (ds: seq<Digit>)
    ensures |ds| <= |s|
  {
    if s == [] || !IsDigit(s[0]) then [] else [s[0] - 48] + Take(s[1..])
  }

  predicate Starts(s: JsString, u: Unit) { s != [] && s[0] == u }

  /** A numeral as it stands: digits * 10^exponent. */
  datatype Numeral = Numeral(neg: bool, digits: seq<Digit>, exponent: int)

  /** The fraction of a numeral: digits after a point, if there is one. */
  function ReadFraction(s: JsString): (seq<Digit>, JsString) {
    if Starts(s, DOT) then (Take(s[1..]), s[1 + |Take(s[1..])|..]) else ([], s)
  }

  function ReadExponent(s: JsString): (int, JsString) {
    if |s| < 2 || s[0] != EXP then (0, s) else
      var signed := s[1] == PLUS || s[1] == MINUS;
      var t := if signed then s[2..] else s[1..];
      var v: int := DigitsValue(Take(t));
      (if s[1] == MINUS then -v else v, t[|Take(t)|..])
  }

  /** A JSON number at the start of s, and what follows it. */
  function Read(s: JsString): Option<(Numeral, JsString)> {
    var neg := Starts(s, MINUS);
    var t := if neg then s[1..] else s;
    var ints := Take(t);
    if ints == [] then None else
      var (frac, u) := ReadFraction(t[|ints|..]);
      var (e, rest) := ReadExponent(u);
      Some((Numeral(neg, ints + frac, e - |frac|), rest))
  }

  function DigitsValue(ds: seq<Digit>): nat {
    if ds == [] then 0 else 10 * DigitsValue(ds[..|ds| - 1]) + ds[|ds| - 1]
  }

  function LeadingZeros(ds: seq<Digit>): (z: nat)
    ensures z <= |ds| && (z < |ds| ==> ds[z] != 0)
  {
    if ds == [] || ds[0] != 0 then 0 else 1 + LeadingZeros(ds[1..])
  }

  /** Without trailing zeros. */
  function Trim(ds: seq<Digit>): (r: seq<Digit>)
    ensures r <= ds && (r != [] ==> r[|r| - 1] != 0)
  {
    if ds == [] || ds[|ds| - 1] != 0 then ds else Trim(ds[..|ds| - 1])
  }

  /** The number that a numeral denotes. */
  function Number(m: Numeral): (x: Num)
    ensures Valid(x)
  {
    var z := LeadingZeros(m.digits);
    var ds := m.digits[z..];
    if ds == [] then Zero(m.neg) else
      TrimKeepsHead(ds);
      Finite(m.neg, Trim(ds), m.exponent + |ds|)
  }

  lemma {:induction false} TrimKeepsHead(ds: seq<Digit>)
    requires ds != [] && ds[0] != 0
    ensures Trim(ds) != [] && Trim(ds)[0] == ds[0]
  {
    if ds[|ds| - 1] == 0 { TrimKeepsHead(ds[..|ds| - 1]); }
  }

  // ---------------------------------------------------------------------------------------------
  // Reading what was printed

  /** Nothing that could continue a number. */
  predicate Ends(rest: JsString) {
    rest == [] || (!IsDigit(rest[0]) && rest[0] != DOT && rest[0] != EXP)
  }

  function FractionPart(ds: seq<Digit>): JsString {
    if ds == [] then [] else [DOT] + Chars(ds)
  }

  function ExponentPart(e: Option<int>): JsString {
    match e
    case None => []
    case Some(v) => [EXP, if v >= 0 then PLUS else MINUS] + Chars(Decimal(if v >= 0 then v else -v))
  }

  lemma {:induction false} TakeChars(ds: seq<Digit>, rest: JsString)
    requires rest == [] || !IsDigit(rest[0])
    ensures Take(Chars(ds) + rest) == ds
    ensures (Chars(ds) + rest)[|ds|..] == rest
  {
    var s := Chars(ds) + rest;
    if ds == [] {
      assert s == rest;
    } else {
      TakeChars(ds[1..], rest);
      assert s[1..] == Chars(ds[1..]) + rest;
      assert ds == [ds[0]] + ds[1..];
    }
  }

  lemma {:induction false} DecimalValue(n: nat)
    ensures DigitsValue(Decimal(n)) == n
  {
    if n < 10 {
      assert [n][..0] == [];
    } else {
      DecimalValue(n / 10);
      var d: Digit := n % 10;
      assert (Decimal(n / 10) + [d])[..|Decimal(n / 10)|] == Decimal(n / 10);
    }
  }

  lemma ReadExponentPart(e: Option<int>, rest: JsString)
    requires Ends(rest)
    ensures ReadExponent(ExponentPart(e) + rest) == (if e.Some? then e.value else 0, rest)
  {
    match e {
      case None => assert ExponentPart(e) + rest == rest;
      case Some(v) =>
        var a := if v >= 0 then v else -v;
        var s := ExponentPart(e) + rest;
        assert s[2..] == Chars(Decimal(a)) + rest;
        TakeChars(Decimal(a), rest);
        DecimalValue(a);
    }
  }

  lemma ReadFractionPart(ds: seq<Digit>, rest: JsString)
    requires rest == [] || (!IsDigit(rest[0]) && rest[0] != DOT)
    ensures ReadFraction(FractionPart(ds) + rest) == (ds, rest)
  {
    hide Take, Chars;
    if ds == [] {
      assert FractionPart(ds) + rest == rest;
    } else {
      var s := FractionPart(ds) + rest;
      assert s[1..] == Chars(ds) + rest;
      TakeChars(ds, rest);
      assert s[1 + |ds|..] == s[1..][|ds|..];
    }
  }

  lemma ReadParts(neg: bool, ints: seq<Digit>, frac: seq<Digit>, e: Option<int>, rest: JsString)
    requires ints != [] && Ends(rest)
    ensures Read(Sign(neg) + (Chars(ints) + FractionPart(frac) + ExponentPart(e)) + rest) ==
      Some((Numeral(neg, ints + frac, (if e.Some? then e.value else 0) - |frac|), rest))
  {
    hide Read, ReadFraction, ReadExponent, Take, ExponentPart, FractionPart, Sign;
    var tail2 := ExponentPart(e) + rest;
    var tail1 := FractionPart(frac) + tail2;
    var t := Chars(ints) + tail1;
    var s := Sign(neg) + (Chars(ints) + FractionPart(frac) + ExponentPart(e)) + rest;
    assert s == Sign(neg) + t;
    assert t[0] == Chars(ints)[0];
    SignSplit(neg, t);
    TailStarts(frac, e, rest);
    ReadExponentPart(e, rest);
    ReadFractionPart(frac, tail2);
    TakeChars(ints, tail1);
    ReadUnfold(neg, s, t, ints, frac, tail1, tail2);
  }

  lemma SignSplit(neg: bool, t: JsString)
    requires t != [] && IsDigit(t[0])
    ensures var s := Sign(neg) + t; Starts(s, MINUS) == neg && (if neg then s[1..] else s) == t
  {
    if neg { assert (Sign(neg) + t)[1..] == t; } else { assert Sign(neg) + t == t; }
  }

  lemma TailStarts(frac: seq<Digit>, e: Option<int>, rest: JsString)
    requires Ends(rest)
    ensures var tail2 := ExponentPart(e) + rest; var tail1 := FractionPart(frac) + tail2;
      && (tail2 == [] || (!IsDigit(tail2[0]) && tail2[0] != DOT))
      && (tail1 == [] || !IsDigit(tail1[0]))
  {
  }

  lemma ReadUnfold(neg: bool, s: JsString, t: JsString, ints: seq<Digit>, frac: seq<Digit>,
                   tail1: JsString, tail2: JsString)
    requires Starts(s, MINUS) == neg && t == (if neg then s[1..] else s)
    requires Take(t) == ints && ints != [] && t[|ints|..] == tail1
    requires ReadFraction(tail1) == (frac, tail2)
    ensures Read(s) == Some((Numeral(neg, ints + frac, ReadExponent(tail2).0 - |frac|), ReadExponent(tail2).1))
  {
  }

  /** The parts of a layout: digits before the point, digits after it, and the exponent. */
  function LayoutParts(ds: seq<Digit>, n: int): (seq<Digit>, seq<Digit>, Option<int>)
    requires ds != []
  {
    var k := |ds|;
    if k <= n <= 21 then (ds + Zeros(n - k), [], None)
    else if 0 < n <= 21 then (ds[..n], ds[n..], None)
    else if -6 < n <= 0 then ([0], Zeros(-n) + ds, None)
    else (ds[..1], ds[1..], Some(n - 1))
  }

  lemma LayoutIsParts(ds: seq<Digit>, n: int)
    requires ds != []
    ensures var (ints, frac, e) := LayoutParts(ds, n);
      ints != [] && Layout(ds, n) == Chars(ints) + FractionPart(frac) + ExponentPart(e)
  {
    hide Chars, Decimal;
    var (ints, frac, e) := LayoutParts(ds, n);
    var s := Layout(ds, n);
    ZeroChar();
    if |ds| <= n <= 21 {
      assert s == Chars(ints) + [] + [];
    } else if 0 < n <= 21 {
      assert s == Chars(ints) + ([DOT] + Chars(frac)) + [];
    } else if -6 < n <= 0 {
      assert s == [ZERO] + ([DOT] + Chars(frac)) + [];
    } else if |ds| == 1 {
      assert ds[..1] == ds && ds[1..] == [];
      assert s == Chars(ds) + [] + ExponentPart(e);
    } else {
      assert s == Chars(ds[..1]) + ([DOT] + Chars(ds[1..])) + ExponentPart(e);
    }
  }

  lemma ZeroChar()
    ensures Chars([0]) == [ZERO]
  {
  }

  /** What reading a layout gives back: the digits, padded with zeros, with the exponent that restores n. */
  lemma ReadLayout(neg: bool, ds: seq<Digit>, n: int, rest: JsString)
    requires ds != [] && Ends(rest)
    ensures var (ints, frac, e) := LayoutParts(ds, n);
      Read(Sign(neg) + Layout(ds, n) + rest) ==
      Some((Numeral(neg, ints + frac, (if e.Some? then e.value else 0) - |frac|), rest))
  {
    hide Read, Layout, LayoutParts, FractionPart, ExponentPart, Sign;
    var (ints, frac, e) := LayoutParts(ds, n);
    LayoutIsParts(ds, n);
    ReadParts(neg, ints, frac, e, rest);
  }

  lemma {:induction false} TrimZeros(ds: seq<Digit>, k: nat)
    requires ds == [] || ds[|ds| - 1] != 0
    ensures Trim(ds + Zeros(k)) == ds
  {
    if k == 0 {
      assert ds + Zeros(0) == ds;
    } else {
      TrimZeros(ds, k - 1);
      assert (ds + Zeros(k))[..|ds| + k - 1] == ds + Zeros(k - 1);
    }
  }

  lemma {:induction false} LeadingOfZeros(k: nat, ds: seq<Digit>)
    requires ds != [] && ds[0] != 0
    ensures LeadingZeros(Zeros(k) + ds) == k && (Zeros(k) + ds)[k..] == ds
  {
    if k == 0 {
      assert Zeros(0) + ds == ds;
    } else {
      LeadingOfZeros(k - 1, ds);
      assert (Zeros(k) + ds)[1..] == Zeros(k - 1) + ds;
    }
  }

  /** Padding changes neither the digits nor the point. */
  lemma NumberOfParts(neg: bool, ds: seq<Digit>, n: int)
    requires Shortest(ds)
    ensures var (ints, frac, e) := LayoutParts(ds, n);
      Number(Numeral(neg, ints + frac, (if e.Some? then e.value else 0) - |frac|)) == Finite(neg, ds, n)
  {
    hide Number;
    var (ints, frac, e) := LayoutParts(ds, n);
    var k := |ds|;
    if k <= n <= 21 {
      assert ints + frac == Zeros(0) + ds + Zeros(n - k);
      PaddedNumber(neg, 0, ds, n - k, 0);
    } else if 0 < n <= 21 {
      assert ints + frac == Zeros(0) + ds + Zeros(0);
      PaddedNumber(neg, 0, ds, 0, n - k);
    } else if -6 < n <= 0 {
      assert ints + frac == Zeros(1 - n) + ds + Zeros(0);
      PaddedNumber(neg, 1 - n, ds, 0, n - k);
    } else {
      assert ints + frac == Zeros(0) + ds + Zeros(0);
      PaddedNumber(neg, 0, ds, 0, n - k);
    }
  }

  lemma PaddedNumber(neg: bool, lead: nat, ds: seq<Digit>, trail: nat, e: int)
    requires Shortest(ds)
    ensures Number(Numeral(neg, Zeros(lead) + ds + Zeros(trail), e)) == Finite(neg, ds, e + |ds| + trail)
  {
    hide Trim, LeadingZeros;
    var body := ds + Zeros(trail);
    assert Zeros(lead) + ds + Zeros(trail) == Zeros(lead) + body;
    LeadingOfZeros(lead, body);
    TrimZeros(ds, trail);
  }

  /** The value a canonical reader sees: negative zero is zero. */
  function Canonical(x: Num): Num
    requires !x.NaN? && !x.Infinite?
  {
    if x.Zero? then Zero(false) else x
  }

  /** Reading inverts printing, in front of anything that cannot continue a number. */
  lemma ReadPrint(x: Num, rest: JsString)
    requires Valid(x) && (x.Zero? || x.Finite?) && Ends(rest)
    ensures var r := Read(Print(x) + rest);
      r.Some? && Number(r.value.0) == Canonical(x) && r.value.1 == rest
  {
    match x {
      case Zero(_) =>
        ReadParts(false, [0], [], None, rest);
        assert Sign(false) + (Chars([0]) + FractionPart([]) + ExponentPart(None)) + rest == Print(x) + rest;
        assert [0] + [] == [0] && LeadingZeros([0]) == 1;
      case Finite(neg, ds, n) =>
        ReadLayout(neg, ds, n, rest);
        NumberOfParts(neg, ds, n);
    }
  }

  // ---------------------------------------------------------------------------------------------
  // The Python formatter

  /** _format_number, on the sign, digit tuple and exponent that Decimal(repr(x)) reports; [] is x == 0. */
  function PyFormat(neg: bool, ds: seq<Digit>, exponent: int): JsString {
    if ds == [] then [ZERO] else Sign(neg) + Layout(ds, exponent + |ds|)
  }

  /** Powers of ten, for negative exponents too. */
  function TenTo(e: int): real
    decreases if e < 0 then -e else e
  {
    if e == 0 then 1.0 else if e > 0 then 10.0 * TenTo(e - 1) else TenTo(e + 1) / 10.0
  }

  /** What a numeral denotes: its digits, as a whole number, times ten to its exponent. */
  function Denotes(m: Numeral): real {
    var v := DigitsValue(m.digits) as real * TenTo(m.exponent);
    if m.neg then -v else v
  }

  lemma {:induction false} PadValue(ds: seq<Digit>, k: nat, e: int)
    ensures DigitsValue(ds + Zeros(k)) as real * TenTo(e) == DigitsValue(ds) as real * TenTo(e + k)
  {
    hide TenTo, DigitsValue;
    if k == 0 {
      assert ds + Zeros(0) == ds;
    } else {
      var init := ds + Zeros(k - 1);
      assert ds + Zeros(k) == init + [0];
      ZeroSnoc(init);
      TenToSucc(e);
      PadValue(ds, k - 1, e + 1);
      TenTimes(DigitsValue(init), TenTo(e));
    }
  }

  lemma ZeroSnoc(ds: seq<Digit>)
    ensures DigitsValue(ds + [0]) == 10 * DigitsValue(ds)
  {
    assert (ds + [0])[..|ds|] == ds;
  }

  lemma TenToSucc(e: int)
    ensures TenTo(e + 1) == 10.0 * TenTo(e)
  {
  }

  lemma TenTimes(v: nat, t: real)
    ensures (10 * v) as real * t == v as real * (10.0 * t)
  {
    assert (10 * v) as real == 10.0 * v as real;
  }

  lemma {:induction false} LeadValue(k: nat, ds: seq<Digit>)
    ensures DigitsValue(Zeros(k) + ds) == DigitsValue(ds)
    decreases |ds|, k
  {
    var s := Zeros(k) + ds;
    if ds == [] {
      assert s == Zeros(k);
      if k > 0 {
        assert Zeros(k)[..k - 1] == Zeros(k - 1) + [];
        LeadValue(k - 1, []);
      }
    } else {
      assert s[..|s| - 1] == Zeros(k) + ds[..|ds| - 1];
      LeadValue(k, ds[..|ds| - 1]);
    }
  }

  /** For every digit string and exponent the formatter's numeral denotes exactly digits * 10^exponent. */
  lemma PyFormatDenotes(neg: bool, ds: seq<Digit>, exponent: int)
    requires ds != []
    ensures var r := Read(PyFormat(neg, ds, exponent));
      && r.Some? && r.value.1 == []
      && Denotes(r.value.0) == Denotes(Numeral(neg, ds, exponent))
  {
    hide Read, Layout, DigitsValue, TenTo, Sign;
    var n := exponent + |ds|;
    var (ints, frac, e) := LayoutParts(ds, n);
    ReadLayout(neg, ds, n, []);
    assert Sign(neg) + Layout(ds, n) + [] == PyFormat(neg, ds, exponent);
    if |ds| <= n <= 21 {
      assert ints + frac == ds + Zeros(exponent);
      PadValue(ds, exponent, 0);
    } else if 0 < n <= 21 {
      assert ints + frac == ds;
    } else if -6 < n <= 0 {
      assert ints + frac == Zeros(1 - n) + ds;
      LeadValue(1 - n, ds);
    } else {
      assert ints + frac == ds;
    }
  }

  /** The formatter agrees with Number::toString, which drops trailing zeros, exactly when there is none to
      drop or when they end up before the decimal point: 100.0 prints "100.0", and 1e2 would print "100". */
  lemma PyAgrees(neg: bool, ds: seq<Digit>, exponent: int)
    requires ds != [] && ds[0] != 0
    ensures Valid(Number(Numeral(neg, ds, exponent)))
    ensures PyFormat(neg, ds, exponent) == Print(Number(Numeral(neg, ds, exponent))) <==>
      ds[|ds| - 1] != 0 || (exponent >= 0 && exponent + |ds| <= 21)
  {
    hide Layout;
    var n := exponent + |ds|;
    var short := Trim(ds);
    TrimKeepsHead(ds);
    assert LeadingZeros(ds) == 0 && ds[0..] == ds;
    assert Number(Numeral(neg, ds, exponent)) == Finite(neg, short, n);
    SignCancels(neg, Layout(ds, n), Layout(short, n));
    if ds[|ds| - 1] != 0 {
      assert short == ds;
    } else {
      TrimShorter(ds);
      LayoutsAgree(short, |ds| - |short|, n);
      TrimAndPad(ds);
    }
  }

  lemma SignCancels(neg: bool, s: JsString, t: JsString)
    ensures Sign(neg) + s == Sign(neg) + t <==> s == t
  {
    if Sign(neg) + s == Sign(neg) + t { SplitConcat(Sign(neg), s, Sign(neg), t); }
  }

  lemma {:induction false} TrimShorter(ds: seq<Digit>)
    requires ds != [] && ds[|ds| - 1] == 0
    ensures |Trim(ds)| < |ds|
  {
  }

  lemma {:induction false} TrimAndPad(ds: seq<Digit>)
    ensures ds == Trim(ds) + Zeros(|ds| - |Trim(ds)|)
  {
    if ds != [] && ds[|ds| - 1] == 0 {
      var init := ds[..|ds| - 1];
      TrimAndPad(init);
      assert ds == init + [0];
      assert Zeros(|ds| - |Trim(ds)|) == Zeros(|init| - |Trim(init)|) + [0];
    } else {
      assert ds + Zeros(0) == ds;
    }
  }

  /** A padded layout is the plain one exactly when the padding lies before the decimal point. */
  lemma LayoutsAgree(ds: seq<Digit>, z: nat, n: int)
    requires Shortest(ds) && z > 0
    ensures Layout(ds + Zeros(z), n) == Layout(ds, n) <==> |ds| + z <= n <= 21
  {
    var all := ds + Zeros(z);
    if |all| <= n <= 21 {
      assert all + Zeros(n - |all|) == ds + Zeros(n - |ds|);
    } else if 0 < n <= 21 {
      assert Layout(all, n)[n] == DOT;
      if |ds| > n {
        assert |Layout(all, n)| == |all| + 1 && |Layout(ds, n)| == |ds| + 1;
      } else {
        assert |Layout(ds, n)| == n && |Layout(all, n)| > n;
      }
    } else if -6 < n <= 0 {
      assert |Layout(all, n)| == 2 - n + |all| && |Layout(ds, n)| == 2 - n + |ds|;
    } else {
      var e := n - 1;
      var tail := |Decimal(if e >= 0 then e else -e)|;
      assert |Layout(all, n)| == 1 + |all| + 2 + tail;
    }
  }
}
