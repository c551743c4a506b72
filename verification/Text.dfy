/** JavaScript strings as UTF-16 code units, TextEncoder's UTF-8 bytes, and lowercase hex digests. */
module Text {
  import opened Bytes

  /** A code point; a lone surrogate counts as one. */
  type Point = c: nat | c < 0x110000

  predicate High(u: nat) { 0xD800 <= u < 0xDC00 }

  predicate Low(u: nat) { 0xDC00 <= u < 0xE000 }

  function Units(c: Point): (s: JsString)
    ensures s != [] && |s| <= 2
  {
    if c < 0x10000 then [c] else
      [0xD800 + (c - 0x10000) / 0x400, 0xDC00 + (c - 0x10000) % 0x400]
  }

  /** The first code point of a nonempty string, and how many units it takes. */
  function First(s: JsString): (r: (Point, nat))
    requires s != []
    ensures 1 <= r.1 <= |s|
    ensures s[..r.1] == Units(r.0)
  {
    if |s| > 1 && High(s[0]) && Low(s[1]) then
      var h: nat, l: nat := s[0], s[1];
      (0x10000 + (h - 0xD800) * 0x400 + (l - 0xDC00), 2)
    else (s[0], 1)
  }

  function Points(s: JsString): seq<Point> {
    if s == [] then [] else [First(s).0] + Points(s[First(s).1..])
  }

  function Utf16(cs: seq<Point>): JsString {
    if cs == [] then [] else Units(cs[0]) + Utf16(cs[1..])
  }

  lemma {:induction false} Utf16OfPoints(s: JsString)
    ensures Utf16(Points(s)) == s
    decreases |s|
  {
    if s != [] {
      var (c, n) := First(s);
      Utf16OfPoints(s[n..]);
      assert Points(s)[1..] == Points(s[n..]);
      assert s == s[..n] + s[n..];
    }
  }

  predicate Scalar(c: Point) { !High(c) && !Low(c) }

  /** No lone surrogates. */
  predicate WellFormed(s: JsString) {
    s == [] || (Scalar(First(s).0) && WellFormed(s[First(s).1..]))
  }

  function Utf8Bytes(c: Point): (d: Data)
    ensures d != []
  {
    if c < 0x80 then [c]
    else if c < 0x800 then [0xC0 + c / 0x40, 0x80 + c % 0x40]
    else if c < 0x10000 then [0xE0 + c / 0x40 / 0x40, 0x80 + c / 0x40 % 0x40, 0x80 + c % 0x40]
    else [0xF0 + c / 0x40 / 0x40 / 0x40, 0x80 + c / 0x40 / 0x40 % 0x40, 0x80 + c / 0x40 % 0x40, 0x80 + c % 0x40]
  }

  function Utf8(cs: seq<Point>): Data {
    if cs == [] then [] else Utf8Bytes(cs[0]) + Utf8(cs[1..])
  }

  /** TextEncoder.encode: a lone surrogate becomes U+FFFD. */
  function TextEncode(s: JsString): Data {
    Utf8(Replaced(Points(s)))
  }

  function Replaced(cs: seq<Point>): seq<Point> {
    seq(|cs|, i requires 0 <= i < |cs| => if Scalar(cs[i]) then cs[i] else 0xFFFD)
  }

  predicate Follows(b: Byte) { 0x80 <= b < 0xC0 }

  /** A code point at the start of bytes and how many it takes, by the bit layout and the ranges of section 3 of
      RFC 3629. */
  function ReadPoint(d: Data): (r: Option<(nat, nat)>)
    requires d != []
    ensures r.Some? ==> 1 <= r.value.1 <= |d|
  {
    var a: nat := d[0];
    if a < 0x80 then Some((a, 1))
    else if 0xC0 <= a < 0xE0 && |d| >= 2 && Follows(d[1]) then
      InRange((a - 0xC0) * 0x40 + (d[1] - 0x80), 0x80, 2)
    else if 0xE0 <= a < 0xF0 && |d| >= 3 && Follows(d[1]) && Follows(d[2]) then
      InRange(((a - 0xE0) * 0x40 + (d[1] - 0x80)) * 0x40 + (d[2] - 0x80), 0x800, 3)
    else if 0xF0 <= a < 0xF8 && |d| >= 4 && Follows(d[1]) && Follows(d[2]) && Follows(d[3]) then
      InRange((((a - 0xF0) * 0x40 + (d[1] - 0x80)) * 0x40 + (d[2] - 0x80)) * 0x40 + (d[3] - 0x80), 0x10000, 4)
    else None
  }

  /** No longer form than the code point needs. */
  function InRange(c: nat, least: nat, length: nat): (r: Option<(nat, nat)>)
    ensures r.Some? ==> r.value.1 == length
  {
    if c >= least then Some((c, length)) else None
  }

  function ReadUtf8(d: Data): Option<seq<nat>> {
    if d == [] then Some([]) else
      match ReadPoint(d)
      case None => None
      case Some(p) =>
        match ReadUtf8(d[p.1..])
        case None => None
        case Some(rest) => Some([p.0] + rest)
  }

  lemma ReadOne(c: Point, rest: Data)
    ensures ReadPoint(Utf8Bytes(c) + rest) == Some((c, |Utf8Bytes(c)|))
  {
    var v: nat := c;
    var x, y := v / 0x40, v / 0x40 / 0x40;
    assert v == x * 0x40 + v % 0x40 && x == y * 0x40 + x % 0x40 && y == y / 0x40 * 0x40 + y % 0x40;
  }

  lemma {:induction false} ReadAll(cs: seq<Point>)
    ensures ReadUtf8(Utf8(cs)) == Some(cs)
  {
    hide Utf8Bytes, ReadPoint;
    if cs != [] {
      var bytes := Utf8Bytes(cs[0]);
      ReadOne(cs[0], Utf8(cs[1..]));
      ReadAll(cs[1..]);
      assert (bytes + Utf8(cs[1..]))[|bytes|..] == Utf8(cs[1..]);
      assert cs == [cs[0]] + cs[1..];
    }
  }

  lemma Utf8Injective(cs: seq<Point>, ds: seq<Point>)
    requires Utf8(cs) == Utf8(ds)
    ensures cs == ds
  {
    ReadAll(cs);
    ReadAll(ds);
  }

  /** The bytes spell the code points of the string, U+FFFD where a surrogate stands alone. */
  lemma TextEncodeSpells(s: JsString)
    ensures var cs := ReadUtf8(TextEncode(s));
      cs.Some? && |cs.value| == |Points(s)| &&
      forall i :: 0 <= i < |cs.value| ==>
        cs.value[i] == if 0xD800 <= Points(s)[i] < 0xE000 then 0xFFFD else Points(s)[i]
  {
    hide ReadUtf8, Utf8, Points;
    ReadAll(Replaced(Points(s)));
  }

  /** Two samples of section 7 of RFC 3629, and a surrogate that stands alone. */
  lemma Utf8Samples()
    ensures TextEncode([0x2262, 0x391]) == [0xE2, 0x89, 0xA2, 0xCE, 0x91]
    ensures TextEncode([0xD84C, 0xDFB4]) == [0xF0, 0xA3, 0x8E, 0xB4]
    ensures TextEncode([0xD84C]) == [0xEF, 0xBF, 0xBD]
  {
    hide TextEncode, Points, Utf8Bytes;
    EncodeNothing();
    SamplePoints();
    TwoUnits(0x2262, 0x391);
    EncodeFrom([0xD84C, 0xDFB4]);
    EncodeFrom([0xD84C]);
    assert [0xD84C, 0xDFB4][2..] == [] && [0xD84C][1..] == [];
  }

  lemma SamplePoints()
    ensures Utf8Bytes(0x2262) == [0xE2, 0x89, 0xA2] && Utf8Bytes(0x391) == [0xCE, 0x91]
    ensures Utf8Bytes(0x233B4) == [0xF0, 0xA3, 0x8E, 0xB4] && Utf8Bytes(0xFFFD) == [0xEF, 0xBF, 0xBD]
  {
  }

  lemma TwoUnits(a: Unit, b: Unit)
    requires Scalar(a) && Scalar(b)
    ensures TextEncode([a, b]) == Utf8Bytes(a) + Utf8Bytes(b)
  {
    hide TextEncode, Points, Utf8Bytes;
    EncodeNothing();
    EncodeFrom([a, b]);
    EncodeFrom([b]);
    assert [a, b][1..] == [b] && [b][1..] == [];
  }

  lemma EncodeNothing()
    ensures TextEncode([]) == []
  {
  }

  lemma EncodeFrom(s: JsString)
    requires s != []
    ensures TextEncode(s) ==
      Utf8Bytes(if Scalar(First(s).0) then First(s).0 else 0xFFFD) + TextEncode(s[First(s).1..])
  {
    hide Utf8Bytes, First;
    var c, rest := First(s).0, Points(s[First(s).1..]);
    var shown: Point := if Scalar(c) then c else 0xFFFD;
    assert Points(s) == [c] + rest;
    assert Replaced([c] + rest) == [shown] + Replaced(rest);
    assert ([shown] + Replaced(rest))[1..] == Replaced(rest);
  }

  /** Well-formed strings with the same bytes are equal. */
  lemma TextEncodeInjective(s: JsString, t: JsString)
    requires WellFormed(s) && WellFormed(t) && TextEncode(s) == TextEncode(t)
    ensures s == t
  {
    ReplacedIsSame(s);
    ReplacedIsSame(t);
    Utf8Injective(Points(s), Points(t));
    Utf16OfPoints(s);
    Utf16OfPoints(t);
  }

  lemma {:induction false} ReplacedIsSame(s: JsString)
    requires WellFormed(s)
    ensures Replaced(Points(s)) == Points(s)
    decreases |s|
  {
    if s != [] {
      var (c, n) := First(s);
      ReplacedIsSame(s[n..]);
      assert Points(s) == [c] + Points(s[n..]);
      assert forall i :: 0 <= i < |Points(s[n..])| ==> Replaced(Points(s))[i + 1] == Replaced(Points(s[n..]))[i];
    }
  }

  lemma FirstConcat(s: JsString, t: JsString)
    requires s != [] && Scalar(First(s).0)
    ensures First(s + t) == First(s)
  {
  }

  lemma {:induction false} WellFormedConcat(s: JsString, t: JsString)
    requires WellFormed(s) && WellFormed(t)
    ensures WellFormed(s + t)
    decreases |s|
  {
    hide WellFormed, First;
    if s == [] {
      assert s + t == t;
    } else {
      var n := First(s).1;
      WellFormedStep(s);
      WellFormedConcat(s[n..], t);
      FirstConcat(s, t);
      assert (s + t)[n..] == s[n..] + t;
      WellFormedStep(s + t);
    }
  }

  lemma WellFormedStep(s: JsString)
    requires s != []
    ensures WellFormed(s) <==> Scalar(First(s).0) && WellFormed(s[First(s).1..])
  {
  }

  /** A string without surrogate units is well-formed. */
  lemma {:induction false} PlainIsWellFormed(s: JsString)
    requires forall i :: 0 <= i < |s| ==> !High(s[i]) && !Low(s[i])
    ensures WellFormed(s)
  {
    if s != [] { PlainIsWellFormed(s[1..]); }
  }

  // ---------------------------------------------------------------------------------------------
  // Hex

  function HexDigit(n: nat): (u: Unit)
    requires n < 16
    ensures HexValue(u) == n
    ensures 48 <= u <= 57 || 97 <= u <= 102
  {
    if n < 10 then 48 + n else 87 + n
  }

  /** The value of a lowercase hex digit, -1 for any other code unit. */
  function HexValue(u: Unit): (n: int)
    ensures -1 <= n < 16
  {
    if 48 <= u <= 57 then u - 48 else if 97 <= u <= 102 then u - 87 else -1
  }

  function Hex(d: Data): (s: JsString)
    ensures |s| == 2 * |d| && IsHex(s)
  {
    seq(2 * |d|, i requires 0 <= i < 2 * |d| => HexDigit(if i % 2 == 0 then d[i / 2] / 16 else d[i / 2] % 16))
  }

  predicate IsHex(s: JsString) {
    forall i :: 0 <= i < |s| ==> HexValue(s[i]) >= 0
  }

  /** hexToBytes, on lowercase hex of even length. */
  function Unhex(s: JsString): (d: Data)
    requires |s| % 2 == 0 && IsHex(s)
    ensures |d| == |s| / 2
  {
    seq(|s| / 2, i requires 0 <= i < |s| / 2 => 16 * HexValue(s[2 * i]) + HexValue(s[2 * i + 1]))
  }

  lemma HexAt(d: Data, k: nat)
    requires k < |d|
    ensures Hex(d)[2 * k] == HexDigit(d[k] / 16) && Hex(d)[2 * k + 1] == HexDigit(d[k] % 16)
  {
  }

  lemma UnhexAt(s: JsString, k: nat)
    requires |s| % 2 == 0 && IsHex(s) && 2 * k < |s|
    ensures Unhex(s)[k] == 16 * HexValue(s[2 * k]) + HexValue(s[2 * k + 1])
  {
  }

  /** The digits are those of the alphabet, high half first. */
  lemma HexSpells(d: Data, k: nat)
    requires k < |d|
    ensures Hex(d)[2 * k] == Lit("0123456789abcdef")[d[k] / 16]
    ensures Hex(d)[2 * k + 1] == Lit("0123456789abcdef")[d[k] % 16]
  {
    hide Hex;
    HexAt(d, k);
    var high: nat, low: nat := d[k] / 16, d[k] % 16;
    DigitSpells(high);
    DigitSpells(low);
  }

  lemma DigitSpells(n: nat)
    requires n < 16
    ensures HexDigit(n) == Lit("0123456789abcdef")[n]
  {
    var s := "0123456789abcdef";
    assert Lit(s)[n] == s[n] as int;
  }

  lemma UnhexOfHex(d: Data)
    ensures Unhex(Hex(d)) == d
  {
    hide Hex, Unhex;
    forall k | 0 <= k < |d| ensures Unhex(Hex(d))[k] == d[k] {
      HexAt(d, k);
      UnhexAt(Hex(d), k);
    }
  }

  lemma HexOfUnhex(s: JsString)
    requires |s| % 2 == 0 && IsHex(s)
    ensures Hex(Unhex(s)) == s
  {
    hide Hex, Unhex;
    forall i | 0 <= i < |s| ensures Hex(Unhex(s))[i] == s[i] {
      HexOfUnhexAt(s, i / 2);
      assert i == 2 * (i / 2) || i == 2 * (i / 2) + 1;
    }
  }

  lemma HexOfUnhexAt(s: JsString, k: nat)
    requires |s| % 2 == 0 && IsHex(s) && 2 * k < |s|
    ensures Hex(Unhex(s))[2 * k] == s[2 * k] && Hex(Unhex(s))[2 * k + 1] == s[2 * k + 1]
  {
    hide Hex, Unhex;
    HexAt(Unhex(s), k);
    UnhexAt(s, k);
    HexDigitOfValue(s[2 * k]);
    HexDigitOfValue(s[2 * k + 1]);
  }

  lemma HexDigitOfValue(u: Unit)
    ensures HexValue(u) >= 0 ==> HexDigit(HexValue(u)) == u
  {
  }

  lemma HexInjective(a: Data, b: Data)
    requires Hex(a) == Hex(b)
    ensures a == b
  {
    UnhexOfHex(a);
    UnhexOfHex(b);
  }

  // ---------------------------------------------------------------------------------------------
  // Digests as the artifacts write them

  /** An ASCII literal of the source. */
  function Lit(s: string): (u: JsString)
    ensures |u| == |s|
  {
    seq(|s|, i requires 0 <= i < |s| => if s[i] < 128 as char then s[i] as int else 63)
  }

  /** toLowerCase, on ASCII letters. */
  function Lower(s: JsString): (t: JsString)
    ensures |t| == |s|
  {
    seq(|s|, i requires 0 <= i < |s| => LowerUnit(s[i]))
  }

  function LowerUnit(u: Unit): Unit {
    var v: nat := u;
    if 65 <= v <= 90 then v + 32 else v
  }

  /** replace(/^sha256:/, ''), and normId followed by slice. */
  function Strip(s: JsString): JsString {
    if Lit("sha256:") <= s then s[7..] else s
  }

  predicate LineEnd(u: Unit) { u == 10 || u == 13 || u == 0x2028 || u == 0x2029 }

  predicate Blank(u: Unit) {
    9 <= u <= 13 || u == 32 || u == 0xA0 || u == 0x1680 || 0x2000 <= u <= 0x200A || LineEnd(u)
    || u == 0x202F || u == 0x205F || u == 0x3000 || u == 0xFEFF
  }

  /** The value of a hex digit of either case, -1 for any other code unit. */
  function AnyHexValue(u: Unit): (n: int)
    ensures -1 <= n < 16
  {
    HexValue(LowerUnit(u))
  }

  /** parseInt(a + b, 16) stored in a byte: blanks and a sign are skipped, the digits stop at the first unit that
      is none, and no digits read as 0. */
  function PairValue(a: Unit, b: Unit): Byte {
    var x: int, y: int := AnyHexValue(a), AnyHexValue(b);
    if x >= 0 then (if y >= 0 then 16 * x + y else x)
    else if y > 0 && a == 45 then 256 - y
    else if y >= 0 && (Blank(a) || a == 43) then y
    else 0
  }

  /** hexToBytes of the badge: two units a byte, an odd unit at the end dropped. */
  function HexToBytes(s: JsString): (d: Data)
    ensures |d| == |s| / 2
  {
    seq(|s| / 2, i requires 0 <= i < |s| / 2 => PairValue(s[2 * i], s[2 * i + 1]))
  }

  /** hexToBytes of the kit: the pairs that match(/../g) finds. */
  function HexPairs(s: JsString): Data {
    if |s| < 2 then []
    else if LineEnd(s[0]) || LineEnd(s[1]) then HexPairs(s[1..])
    else [PairValue(s[0], s[1])] + HexPairs(s[2..])
  }

  /** On lowercase hex both readers are the inverse of Hex. */
  lemma HexToBytesIsUnhex(s: JsString)
    requires |s| % 2 == 0 && IsHex(s)
    ensures HexToBytes(s) == Unhex(s)
  {
  }

  lemma {:induction false} HexPairsIsUnhex(s: JsString)
    requires |s| % 2 == 0 && IsHex(s)
    ensures HexPairs(s) == Unhex(s)
  {
    hide HexPairs, Unhex, HexValue, PairValue;
    HexPairsUnfold(s);
    if s != [] {
      HexPairsIsUnhex(s[2..]);
      PairOfHex(s[0], s[1]);
      var d := [PairValue(s[0], s[1])] + Unhex(s[2..]);
      forall k | 0 <= k < |d| ensures d[k] == Unhex(s)[k] {
        UnhexAt(s, k);
        if k > 0 { UnhexAt(s[2..], k - 1); }
      }
      assert d == Unhex(s);
    }
  }

  lemma HexPairsUnfold(s: JsString)
    requires |s| % 2 == 0 && IsHex(s)
    ensures HexPairs(s) == if s == [] then [] else [PairValue(s[0], s[1])] + HexPairs(s[2..])
  {
  }

  lemma PairOfHex(a: Unit, b: Unit)
    requires HexValue(a) >= 0 && HexValue(b) >= 0
    ensures PairValue(a, b) as int == 16 * HexValue(a) + HexValue(b)
  {
  }

  lemma LowerOfHex(s: JsString)
    requires IsHex(s)
    ensures Lower(s) == s
  {
  }

  lemma StripHex(s: JsString)
    requires IsHex(s)
    ensures Strip(s) == s
  {
    assert Lit("sha256:")[0] == 115;
  }

  /** Hex digits of either case. */
  predicate IsAnyHex(s: JsString) {
    forall i :: 0 <= i < |s| ==> AnyHexValue(s[i]) >= 0
  }

  lemma LowerIsHex(s: JsString)
    requires IsAnyHex(s)
    ensures IsHex(Lower(s))
  {
  }

  lemma PairOfLower(a: Unit, b: Unit)
    requires AnyHexValue(a) >= 0 && AnyHexValue(b) >= 0
    ensures PairValue(a, b) == PairValue(LowerUnit(a), LowerUnit(b)) && !LineEnd(a) && !LineEnd(b)
  {
  }

  /** The case of hex digits does not change the bytes. */
  lemma {:induction false} HexPairsOfLower(s: JsString)
    requires |s| % 2 == 0 && IsAnyHex(s)
    ensures HexPairs(s) == HexPairs(Lower(s))
    decreases |s|
  {
    hide PairValue, LowerUnit, AnyHexValue;
    if s != [] {
      HexPairsOfLower(s[2..]);
      PairOfLower(s[0], s[1]);
      LowerIsHex(s);
      HexPairsUnfold(Lower(s));
      assert Lower(s)[2..] == Lower(s[2..]);
    }
  }

  lemma LowerUnitTwice(u: Unit)
    ensures LowerUnit(LowerUnit(u)) == LowerUnit(u)
    ensures LowerUnit(u) == u || (AnyHexValue(u) == AnyHexValue(LowerUnit(u)) && !Blank(u) && !Blank(LowerUnit(u))
      && u != 45 && u != 43 && LowerUnit(u) != 45 && LowerUnit(u) != 43)
  {
  }

  /** Nor does it for the badge's reader, on any string. */
  lemma HexToBytesOfLower(s: JsString)
    ensures HexToBytes(Lower(s)) == HexToBytes(s)
  {
    hide LowerUnit, Blank;
    forall i | 0 <= i < |s| / 2 ensures HexToBytes(Lower(s))[i] == HexToBytes(s)[i] {
      LowerUnitTwice(s[2 * i]);
      LowerUnitTwice(s[2 * i + 1]);
    }
  }

  /** Two ids in hex of any case read alike exactly when they are the same in lower case. */
  lemma HexPairsDecide(s: JsString, t: JsString)
    requires |s| % 2 == 0 && |t| % 2 == 0 && IsAnyHex(s) && IsAnyHex(t)
    ensures HexPairs(s) == HexPairs(t) <==> Lower(s) == Lower(t)
  {
    hide HexPairs, Lower, IsHex, IsAnyHex, Unhex;
    HexPairsOfLower(s);
    HexPairsOfLower(t);
    LowerIsHex(s);
    LowerIsHex(t);
    HexPairsIsUnhex(Lower(s));
    HexPairsIsUnhex(Lower(t));
    HexOfUnhex(Lower(s));
    HexOfUnhex(Lower(t));
  }
}
