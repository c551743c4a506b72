/** The base58 codec of the did:key and proof-value strings: the two in-place carry loops, the positional
    numerals they maintain, and the round trips in both directions. */
module Base58 {
  import opened Bytes

  // ---------------------------------------------------------------------------------------------
  // Positional numerals, least significant digit first

  type Radix = b: nat | b == 58 || b == 256 witness 58

  predicate DigitsBelow(ds: seq<nat>, base: Radix) {
    forall i :: 0 <= i < |ds| ==> ds[i] < base
  }

  function Value(ds: seq<nat>, base: Radix): nat {
    if ds == [] then 0 else ds[0] + base * Value(ds[1..], base)
  }

  /** Big-endian value, the order in which both loops read their input. */
  function BigEndian(ds: seq<nat>, base: Radix): nat {
    if ds == [] then 0 else BigEndian(ds[..|ds| - 1], base) * base + ds[|ds| - 1]
  }

  /** The numeral of n; zero is the one-digit numeral [0]. */
  function Numeral(n: nat, base: Radix): seq<nat>
    decreases n
  {
    if n < base then [n] else DivMod(n, base); [n % base] + Numeral(n / base, base)
  }

  lemma DivMod(n: nat, base: Radix)
    ensures n == base * (n / base) + n % base && n % base < base
    ensures n > 0 ==> n / base < n
    ensures n >= base ==> n / base > 0
    ensures n < base ==> n / base == 0
  {
    if base == 58 {} else {}
  }

  lemma DivModOf(v: nat, d: nat, base: Radix)
    requires d < base
    ensures (d + base * v) / base == v && (d + base * v) % base == d
  {
    if base == 58 {} else {}
  }

  predicate Canonical(ds: seq<nat>, base: Radix) {
    ds != [] && DigitsBelow(ds, base) && (|ds| == 1 || ds[|ds| - 1] != 0)
  }

  /** A canonical digit list is the numeral of its value. */
  lemma {:induction false} CanonicalIsNumeral(ds: seq<nat>, base: Radix)
    requires Canonical(ds, base)
    ensures Numeral(Value(ds, base), base) == ds
    ensures |ds| > 1 || ds[0] != 0 ==> Value(ds, base) > 0
  {
    if |ds| == 1 {
      assert ds == [ds[0]] && Value(ds, base) == ds[0] + base * 0;
    } else {
      CanonicalIsNumeral(ds[1..], base);
      DivModOf(Value(ds[1..], base), ds[0], base);
      assert ds == [ds[0]] + ds[1..];
      if base == 58 {} else {}
    }
  }

  lemma {:induction false} NumeralIsCanonical(n: nat, base: Radix)
    ensures Canonical(Numeral(n, base), base) && Value(Numeral(n, base), base) == n
    ensures n > 0 ==> Numeral(n, base)[|Numeral(n, base)| - 1] != 0
    decreases n
  {
    DivMod(n, base);
    if n < base {
      assert Value([n], base) == n + base * 0;
    } else {
      NumeralIsCanonical(n / base, base);
      var rest := Numeral(n / base, base);
      assert Numeral(n, base) == [n % base] + rest && ([n % base] + rest)[1..] == rest;
    }
  }

  function Reverse(s: seq<nat>): (r: seq<nat>)
    ensures |r| == |s| && forall i :: 0 <= i < |s| ==> r[i] == s[|s| - 1 - i]
  {
    if s == [] then [] else Reverse(s[1..]) + [s[0]]
  }

  lemma {:induction false} BigEndianOfReverse(ds: seq<nat>, base: Radix)
    ensures BigEndian(Reverse(ds), base) == Value(ds, base)
  {
    if ds != [] {
      assert Reverse(ds)[..|ds| - 1] == Reverse(ds[1..]);
      BigEndianOfReverse(ds[1..], base);
    }
  }

  // ---------------------------------------------------------------------------------------------
  // The carry loop

  /** ds * mul + carry, digit by digit; the carry left at the end is appended. */
  function MulAdd(ds: seq<nat>, mul: nat, carry: nat, base: Radix): seq<nat>
    decreases |ds|, carry
  {
    if ds == [] then
      if carry == 0 then [] else DivMod(carry, base); [carry % base] + MulAdd([], mul, carry / base, base)
    else
      var c := carry + ds[0] * mul;
      [c % base] + MulAdd(ds[1..], mul, c / base, base)
  }

  lemma NoDigits(base: Radix)
    ensures Value([], base) == 0
  {
  }

  lemma ValueCons(d: nat, ds: seq<nat>, base: Radix)
    ensures Value([d] + ds, base) == d + base * Value(ds, base)
  {
    assert ([d] + ds)[1..] == ds;
  }

  lemma {:induction false} MulAddValue(ds: seq<nat>, mul: nat, carry: nat, base: Radix)
    ensures Value(MulAdd(ds, mul, carry, base), base) == Value(ds, base) * mul + carry
    decreases |ds|, carry
  {
    hide Value, MulAdd;
    if ds == [] {
      DivMod(carry, base);
      MulAddCarry(mul, carry, base);
      NoDigits(base);
      if carry > 0 {
        MulAddValue([], mul, carry / base, base);
        ValueCons(carry % base, MulAdd([], mul, carry / base, base), base);
      }
    } else {
      var c := carry + ds[0] * mul;
      MulAddValue(ds[1..], mul, c / base, base);
      MulAddHead(ds, 0, mul, carry, base);
      assert ds[0..] == ds && ds == [ds[0]] + ds[1..];
      ValueCons(c % base, MulAdd(ds[1..], mul, c / base, base), base);
      ValueCons(ds[0], ds[1..], base);
      MulAddStep(Value(ds[1..], base), ds[0], mul, carry, base);
    }
  }

  lemma {:induction false} MulAddDigits(ds: seq<nat>, mul: nat, carry: nat, base: Radix)
    ensures DigitsBelow(MulAdd(ds, mul, carry, base), base)
    decreases |ds|, carry
  {
    var c := if ds == [] then carry else carry + ds[0] * mul;
    DivMod(c, base);
    if ds != [] {
      MulAddDigits(ds[1..], mul, c / base, base);
    } else if carry > 0 {
      MulAddDigits([], mul, carry / base, base);
    }
  }

  lemma MulAddStep(v: nat, d: nat, mul: nat, carry: nat, base: Radix)
    ensures var c := carry + d * mul; c % base + base * (v * mul + c / base) == (d + base * v) * mul + carry
  {
    var c := carry + d * mul;
    DivMod(c, base);
    assert base * (v * mul + c / base) == (base * v) * mul + base * (c / base);
    assert (d + base * v) * mul == d * mul + (base * v) * mul;
  }

  /** The most significant digit of the result is nonzero when that of ds, or the carry, is. */
  lemma {:induction false} MulAddTop(ds: seq<nat>, mul: nat, carry: nat, base: Radix)
    requires mul > 0
    requires if |ds| <= 1 then carry > 0 || (ds != [] && ds[0] > 0) else ds[|ds| - 1] > 0
    ensures var r := MulAdd(ds, mul, carry, base); r != [] && r[|r| - 1] != 0
    decreases |ds|, carry
  {
    var c := if ds == [] then carry else carry + ds[0] * mul;
    var next := if ds == [] then [] else ds[1..];
    DivMod(c, base);
    if next != [] || c >= base {
      MulAddTop(next, mul, c / base, base);
    }
  }

  /** One round of either loop turns the numeral of v into the numeral of v * mul + carry. */
  lemma MulAddNumeral(v: nat, mul: nat, carry: nat, base: Radix)
    requires mul > 0 && (v > 0 || carry > 0)
    ensures MulAdd(Numeral(v, base), mul, carry, base) == Numeral(v * mul + carry, base)
  {
    var ds := Numeral(v, base);
    NumeralIsCanonical(v, base);
    MulAddValue(ds, mul, carry, base);
    MulAddDigits(ds, mul, carry, base);
    MulAddTop(ds, mul, carry, base);
    CanonicalIsNumeral(MulAdd(ds, mul, carry, base), base);
  }

  // ---------------------------------------------------------------------------------------------
  // The alphabet 1-9, A-Z without I and O, a-z without l

  function Letter(d: nat): (u: Unit)
    requires d < 58
    ensures IndexOf(u) == d
    ensures u == 49 <==> d == 0
  {
    if d < 9 then 49 + d
    else if d < 17 then 65 + (d - 9)
    else if d < 22 then 74 + (d - 17)
    else if d < 33 then 80 + (d - 22)
    else if d < 44 then 97 + (d - 33)
    else 109 + (d - 44)
  }

  /** Position in the alphabet, -1 for any other code unit. */
  function IndexOf(u: Unit): (d: int)
    ensures -1 <= d < 58
  {
    if 49 <= u <= 57 then u - 49
    else if 65 <= u <= 72 then u - 65 + 9
    else if 74 <= u <= 78 then u - 74 + 17
    else if 80 <= u <= 90 then u - 80 + 22
    else if 97 <= u <= 107 then u - 97 + 33
    else if 109 <= u <= 122 then u - 109 + 44
    else -1
  }

  lemma LetterOfIndex(u: Unit)
    requires IndexOf(u) >= 0
    ensures Letter(IndexOf(u)) == u
  {
  }

  predicate AllLetters(s: JsString) {
    forall i :: 0 <= i < |s| ==> IndexOf(s[i]) >= 0
  }

  function Letters(ds: seq<nat>): (s: JsString)
    requires DigitsBelow(ds, 58)
    ensures |s| == |ds|
  {
    seq(|ds|, i requires 0 <= i < |ds| => Letter(ds[i]))
  }

  function Indices(s: JsString): (ds: seq<nat>)
    requires AllLetters(s)
    ensures |ds| == |s| && DigitsBelow(ds, 58)
  {
    seq(|s|, i requires 0 <= i < |s| => IndexOf(s[i]) as nat)
  }

  function Repeat(x: nat, n: nat): (r: seq<nat>)
    ensures |r| == n && forall i :: 0 <= i < n ==> r[i] == x
  {
    seq(n, i => x)
  }

  /** How many times x opens the list. */
  function Leading(x: nat, s: seq<nat>): (n: nat)
    ensures n <= |s| && (forall i :: 0 <= i < n ==> s[i] == x) && (n < |s| ==> s[n] != x)
  {
    if s == [] || s[0] != x then 0 else 1 + Leading(x, s[1..])
  }

  // ---------------------------------------------------------------------------------------------
  // The codec

  /** The numeral of v, most significant digit first. */
  function Written(v: nat, base: Radix): (ds: seq<nat>)
    ensures DigitsBelow(ds, base) && BigEndian(ds, base) == v
    ensures ds != [] && (v > 0 ==> ds[0] != 0)
  {
    NumeralIsCanonical(v, base);
    BigEndianOfReverse(Numeral(v, base), base);
    Reverse(Numeral(v, base))
  }

  function Encoded(bytes: Data): JsString {
    var z := Leading(0, bytes);
    Repeat(49, z) + Letters(Written(BigEndian(bytes[z..], 256), 58))
  }

  /** None stands for the exception on a character outside the alphabet. */
  function Decoded(str: JsString): Option<Data> {
    var z := Leading(49, str);
    if !AllLetters(str[z..]) then None else
      var bytes: Data := Repeat(0, z) + Written(BigEndian(Indices(str[z..]), 58), 256);
      Some(bytes)
  }

  /** The inner loops of both directions: each digit takes the carry in place, then the carry that is left
      is pushed. The carry stays below mul (255 at most when encoding, 57 when decoding), so no sum leaves
      the 32-bit range of the source's shifts. */
  method Round(digits: seq<nat>, mul: nat, carry: nat, base: Radix) returns (d: seq<nat>)
    requires DigitsBelow(digits, base) && carry < mul && mul + base == 314
    ensures d == MulAdd(digits, mul, carry, base)
  {
    hide MulAdd;
    d := digits;
    var c: nat := carry;
    for j := 0 to |d|
      invariant |d| == |digits| && d[j..] == digits[j..] && c < mul
      invariant d[..j] + MulAdd(digits[j..], mul, c, base) == MulAdd(digits, mul, carry, base)
    {
      MulAddHead(digits, j, mul, c, base);
      assert d[j] == d[j..][0];
      CarryBound(d[j], mul, c, base);
      ghost var pre := d[..j];
      c := c + d[j] * mul;
      var x: nat := c % base;
      d := d[j := x];
      c := c / base;
      Digitwise(pre, x, MulAdd(digits[j + 1..], mul, c, base));
      assert d[..j + 1] == pre + [x];
    }
    assert d[..|d|] == d && digits[|d|..] == [];
    while c > 0
      invariant d + MulAdd([], mul, c, base) == MulAdd(digits, mul, carry, base)
    {
      MulAddCarry(mul, c, base);
      DivMod(c, base);
      d := d + [c % base];
      c := c / base;
    }
    MulAddCarry(mul, 0, base);
  }

  lemma Digitwise(pre: seq<nat>, x: nat, rest: seq<nat>)
    ensures pre + ([x] + rest) == (pre + [x]) + rest
  {
  }

  lemma MulAddHead(ds: seq<nat>, j: nat, mul: nat, carry: nat, base: Radix)
    requires j < |ds|
    ensures var c := carry + ds[j] * mul;
      MulAdd(ds[j..], mul, carry, base) == [c % base] + MulAdd(ds[j + 1..], mul, c / base, base)
  {
    assert ds[j..][1..] == ds[j + 1..];
  }

  lemma MulAddCarry(mul: nat, carry: nat, base: Radix)
    ensures MulAdd([], mul, carry, base) ==
      if carry == 0 then [] else [carry % base] + MulAdd([], mul, carry / base, base)
  {
  }

  lemma CarryBound(d: nat, mul: nat, carry: nat, base: Radix)
    requires d < base && carry < mul && mul + base == 314
    ensures 0 <= carry + d * mul < 14848 && 0 <= (carry + d * mul) / base < mul
  {
    if base == 58 { assert mul == 256; } else { assert mul == 58; }
  }

  /** The digits of the bytes after z leading zeros. */
  method ToBase58(bytes: Data, z: nat) returns (d: seq<nat>)
    requires z == Leading(0, bytes)
    ensures d == Numeral(BigEndian(bytes[z..], 256), 58)
  {
    hide Numeral, MulAdd, BigEndian;
    d := [0];
    BigEndianEmpty(256);
    NumeralOfZero(58);
    ghost var v: nat := 0;
    assert bytes[z..z] == [];
    for i := z to |bytes|
      invariant v == BigEndian(bytes[z..i], 256) && (i > z ==> v > 0)
      invariant d == Numeral(v, 58)
    {
      NumeralIsCanonical(v, 58);
      MulAddNumeral(v, 256, bytes[i], 58);
      BigEndianSnoc(bytes[z..i], bytes[i], 256);
      assert bytes[z..i + 1] == bytes[z..i] + [bytes[i]];
      v := v * 256 + bytes[i];
      d := Round(d, 256, bytes[i], 58);
    }
    assert bytes[z..|bytes|] == bytes[z..];
  }

  /** The bytes of the letters after z leading '1's; None stands for the exception on any other character. */
  method ToBytes(str: JsString, z: nat) returns (r: Option<seq<nat>>)
    requires z == Leading(49, str)
    ensures r.Some? <==> AllLetters(str[z..])
    ensures r.Some? ==> r.value == Numeral(BigEndian(Indices(str[z..]), 58), 256)
  {
    hide Numeral, MulAdd, BigEndian, IndexOf;
    var b: seq<nat> := [0];
    BigEndianEmpty(58);
    NumeralOfZero(256);
    ghost var v: nat := 0;
    assert str[z..z] == [] && Indices(str[z..z]) == [];
    for i := z to |str|
      invariant AllLetters(str[z..i])
      invariant v == BigEndian(Indices(str[z..i]), 58) && (i > z ==> v > 0)
      invariant b == Numeral(v, 256)
    {
      var c := IndexOf(str[i]);
      if c < 0 {
        assert str[z..][i - z] == str[i];
        return None;
      }
      LetterOfIndex(str[i]);
      NumeralIsCanonical(v, 256);
      MulAddNumeral(v, 58, c, 256);
      BigEndianSnoc(Indices(str[z..i]), c, 58);
      assert str[z..i + 1] == str[z..i] + [str[i]];
      assert Indices(str[z..i + 1]) == Indices(str[z..i]) + [c];
      v := v * 58 + c;
      b := Round(b, 58, c, 256);
    }
    assert str[z..|str|] == str[z..];
    r := Some(b);
  }

  lemma BigEndianEmpty(base: Radix)
    ensures BigEndian([], base) == 0
  {
  }

  lemma BigEndianSnoc(ds: seq<nat>, d: nat, base: Radix)
    ensures BigEndian(ds + [d], base) == BigEndian(ds, base) * base + d
  {
    assert (ds + [d])[..|ds|] == ds;
  }

  lemma NumeralOfZero(base: Radix)
    ensures Numeral(0, base) == [0]
  {
  }

  method Encode(bytes: Data) returns (s: JsString)
    ensures s == Encoded(bytes)
  {
    hide Numeral, BigEndian;
    var z: nat := 0;
    while z < |bytes| && bytes[z] == 0
      invariant z <= Leading(0, bytes)
    {
      z := z + 1;
    }
    var d := ToBase58(bytes, z);
    s := [];
    for k := 0 to z
      invariant s == Repeat(49, k)
    {
      s := s + [49];
    }
    NumeralIsCanonical(BigEndian(bytes[z..], 256), 58);
    var letters := Spelled(d);
    s := s + letters;
  }

  /** The letters of the digits, written back to front. */
  method Spelled(d: seq<nat>) returns (s: JsString)
    requires DigitsBelow(d, 58)
    ensures s == Letters(Reverse(d))
  {
    s := [];
    var q: nat := |d|;
    while q > 0
      invariant q <= |d| && |s| == |d| - q
      invariant forall i :: 0 <= i < |s| ==> s[i] == Letter(d[|d| - 1 - i])
    {
      q := q - 1;
      s := s + [Letter(d[q])];
    }
  }

  method Decode(str: JsString) returns (r: Option<Data>)
    ensures r == Decoded(str)
  {
    hide Numeral, BigEndian, IndexOf;
    var z: nat := 0;
    while z < |str| && str[z] == 49
      invariant z <= Leading(49, str)
    {
      z := z + 1;
    }
    var digits := ToBytes(str, z);
    if digits == None { return None; }
    NumeralIsCanonical(BigEndian(Indices(str[z..]), 58), 256);
    var bytes := Placed(digits.value, z);
    r := Some(bytes);
  }

  /** The output array: z zeros, then the digits written back to front. */
  method Placed(b: seq<nat>, z: nat) returns (out: seq<nat>)
    ensures out == Repeat(0, z) + Reverse(b)
  {
    out := Repeat(0, z + |b|);
    for k := 0 to |b|
      invariant |out| == z + |b|
      invariant forall i :: 0 <= i < z + |b| - k ==> out[i] == 0
      invariant forall i {:trigger out[i]} :: z + |b| - k <= i < z + |b| ==> out[i] == b[z + |b| - 1 - i]
    {
      out := out[z + |b| - 1 - k := b[k]];
    }
  }

  // ---------------------------------------------------------------------------------------------
  // Round trips

  lemma {:induction false} TopNonzero(ds: seq<nat>, base: Radix)
    requires ds != [] && ds[0] != 0
    ensures BigEndian(ds, base) > 0
  {
    if |ds| > 1 { TopNonzero(ds[..|ds| - 1], base); }
  }

  /** Reading a digit string that does not start with zero and writing its value gives it back. */
  lemma WrittenOfRead(ds: seq<nat>, base: Radix)
    requires ds != [] && ds[0] != 0 && DigitsBelow(ds, base)
    ensures Written(BigEndian(ds, base), base) == ds
  {
    var r := Reverse(ds);
    BigEndianOfReverse(r, base);
    assert Reverse(r) == ds;
    CanonicalIsNumeral(r, base);
  }

  lemma LeadingSplit(x: nat, z: nat, rest: seq<nat>)
    requires rest == [] || rest[0] != x
    ensures Leading(x, Repeat(x, z) + rest) == z
    ensures (Repeat(x, z) + rest)[z..] == rest
  {
    var s := Repeat(x, z) + rest;
    assert forall i :: 0 <= i < z ==> s[i] == x;
    assert rest != [] ==> s[z] == rest[0];
  }

  lemma EncodedParts(z: nat, bs: Data)
    requires bs == [] || bs[0] != 0
    ensures Encoded(Repeat(0, z) + bs) == Repeat(49, z) + Letters(Written(BigEndian(bs, 256), 58))
  {
    LeadingSplit(0, z, bs);
  }

  lemma DecodedParts(z: nat, s: JsString)
    requires AllLetters(s) && (s == [] || s[0] != 49)
    ensures Decoded(Repeat(49, z) + s) == Some(Repeat(0, z) + Written(BigEndian(Indices(s), 58), 256))
  {
    LeadingSplit(49, z, s);
  }

  lemma LeadingParts(x: nat, s: seq<nat>)
    ensures s == Repeat(x, Leading(x, s)) + s[Leading(x, s)..]
  {
  }

  /** Decoding what was encoded gives the bytes back, unless every byte is zero: then it gives two more. */
  lemma DecodeEncode(bytes: Data)
    ensures Decoded(Encoded(bytes)) ==
      Some(if Leading(0, bytes) < |bytes| then bytes else Repeat(0, |bytes| + 2))
  {
    hide *;
    var z := Leading(0, bytes);
    LeadingParts(0, bytes);
    DecodeEncodeParts(z, bytes[z..]);
  }

  /** What comes back of bytes that are encoded and decoded. */
  function Returned(bytes: Data): (r: Data)
    ensures bytes != [] && bytes[0] != 0 ==> r == bytes
  {
    if Leading(0, bytes) < |bytes| then bytes else Repeat(0, |bytes| + 2)
  }

  lemma EncodedReturns(bytes: Data)
    ensures Decoded(Encoded(bytes)) == Some(Returned(bytes))
  {
    hide Encoded, Decoded, Leading, Repeat;
    DecodeEncode(bytes);
  }

  lemma DecodeEncodeParts(z: nat, bs: Data)
    requires bs == [] || bs[0] != 0
    ensures Decoded(Encoded(Repeat(0, z) + bs)) == Some(if bs != [] then Repeat(0, z) + bs else Repeat(0, z + 2))
  {
    hide Encoded, Decoded, Written, BigEndian, Letter, IndexOf;
    EncodedParts(z, bs);
    if bs == [] {
      assert Repeat(0, z) + bs == Repeat(0, z);
      AllZeros(z);
      AllOnes(z + 1);
    } else {
      TopNonzero(bs, 256);
      var ds := Written(BigEndian(bs, 256), 58);
      DecodedParts(z, Letters(ds));
      assert Indices(Letters(ds)) == ds;
      WrittenOfRead(bs, 256);
    }
  }

  /** Encoding what was decoded gives the string back, unless it is all '1': then it gives two more. */
  lemma EncodeDecode(str: JsString)
    requires Decoded(str).Some?
    ensures Encoded(Decoded(str).value) ==
      if Leading(49, str) < |str| then str else Repeat(49, |str| + 2)
  {
    hide *;
    var z := Leading(49, str);
    LeadingParts(49, str);
    DecodedLetters(str);
    EncodeDecodeParts(z, str[z..]);
  }

  lemma DecodedLetters(str: JsString)
    ensures Decoded(str).Some? <==> AllLetters(str[Leading(49, str)..])
  {
  }

  lemma EncodeDecodeParts(z: nat, s: JsString)
    requires AllLetters(s) && (s == [] || s[0] != 49)
    ensures Decoded(Repeat(49, z) + s).Some?
    ensures Encoded(Decoded(Repeat(49, z) + s).value) == if s != [] then Repeat(49, z) + s else Repeat(49, z + 2)
  {
    hide Encoded, Decoded, Written, BigEndian, Letter, IndexOf;
    DecodedParts(z, s);
    var ds := Indices(s);
    if s == [] {
      assert Repeat(49, z) + s == Repeat(49, z);
      AllOnes(z);
      AllZeros(z + 1);
    } else {
      LetterOfIndex(s[0]);
      TopNonzero(ds, 58);
      EncodedParts(z, Written(BigEndian(ds, 58), 256));
      WrittenOfRead(ds, 58);
      forall i | 0 <= i < |ds| ensures Letters(ds)[i] == s[i] { LetterOfIndex(s[i]); }
      assert Letters(ds) == s;
    }
  }

  lemma AllOnes(n: nat)
    ensures Decoded(Repeat(49, n)) == Some(Repeat(0, n + 1))
  {
    DecodedParts(n, []);
    assert Repeat(49, n) + [] == Repeat(49, n);
    WrittenZero(256);
    assert Repeat(0, n) + [0] == Repeat(0, n + 1);
  }

  lemma AllZeros(n: nat)
    ensures Encoded(Repeat(0, n)) == Repeat(49, n + 1)
  {
    EncodedParts(n, []);
    assert Repeat(0, n) + [] == Repeat(0, n);
    WrittenZero(58);
    assert Letters([0]) == [49];
    assert Repeat(49, n) + [49] == Repeat(49, n + 1);
  }

  lemma WrittenZero(base: Radix)
    ensures Written(BigEndian([], base), base) == [0]
  {
  }
}
