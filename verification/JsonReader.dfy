/** A parser for canonical JSON text, and the theorems it gives: printing is invertible, and two values print
    alike exactly when they are the same JSON value. */
module JsonReader {
  import opened Bytes
  import opened Text
  import opened Json
  import Numerals

  // ---------------------------------------------------------------------------------------------
  // Parsing

  function Unescape(c: Unit): Option<Unit> {
    match c
    case 98 => Some(8)
    case 116 => Some(9)
    case 110 => Some(10)
    case 102 => Some(12)
    case 114 => Some(13)
    case 34 => Some(34)
    case 92 => Some(92)
    case 47 => Some(47)
    case _ => None
  }

  function HexUnit(s: JsString): (u: Option<Unit>)
    requires |s| == 4
  {
    if !IsHex(s) then None else
      var a: nat, b: nat, c: nat, d: nat := HexValue(s[0]), HexValue(s[1]), HexValue(s[2]), HexValue(s[3]);
      Some(((a * 16 + b) * 16 + c) * 16 + d)
  }

  /** The characters of a string literal after its opening quote, and what follows its closing quote. */
  function ReadChars(s: JsString): (r: Option<(JsString, JsString)>)
    ensures r.Some? ==> |r.value.1| < |s|
  {
    if s == [] then None
    else if s[0] == QUOTE then Some(([], s[1..]))
    else if s[0] != BACKSLASH then Prepend(s[0], ReadChars(s[1..]))
    else if |s| < 2 then None
    else if s[1] == 117 then
      if |s| < 6 || HexUnit(s[2..6]) == None then None else Prepend(HexUnit(s[2..6]).value, ReadChars(s[6..]))
    else if Unescape(s[1]) == None then None
    else Prepend(Unescape(s[1]).value, ReadChars(s[2..]))
  }

  function Prepend(u: Unit, r: Option<(JsString, JsString)>): Option<(JsString, JsString)> {
    if r == None then None else Some(([u] + r.value.0, r.value.1))
  }

  predicate Opens(s: JsString, word: JsString) { |word| <= |s| && s[..|word|] == word }

  function ParseValue(s: JsString): (r: Option<(Json, JsString)>)
    decreases |s|, 0
    ensures r.Some? ==> |r.value.1| < |s|
  {
    if s == [] then None
    else if s[0] == QUOTE then
      (match ReadChars(s[1..])
       case None => None
       case Some(p) => Some((Str(p.0), p.1)))
    else if s[0] == 91 then
      if Opens(s[1..], [93]) then Some((Arr([]), s[2..])) else
        (match ParseItems(s[1..])
         case None => None
         case Some(p) => Some((Arr(p.0), p.1)))
    else if s[0] == 123 then
      if Opens(s[1..], [125]) then Some((Obj([]), s[2..])) else
        (match ParseMembers(s[1..])
         case None => None
         case Some(p) => Some((Obj(p.0), p.1)))
    else if Opens(s, Emit(Null)) then Some((Null, s[4..]))
    else if Opens(s, Emit(Bool(true))) then Some((Bool(true), s[4..]))
    else if Opens(s, Emit(Bool(false))) then Some((Bool(false), s[5..]))
    else
      match Numerals.Read(s)
      case None => None
      case Some(p) => if |p.1| < |s| then Some((Num(Numerals.Number(p.0)), p.1)) else None
  }

  function ParseItems(s: JsString): (r: Option<(seq<Json>, JsString)>)
    decreases |s|, 1
    ensures r.Some? ==> |r.value.1| < |s|
  {
    match ParseValue(s)
    case None => None
    case Some(p) =>
      if Opens(p.1, [COMMA]) then
        (match ParseItems(p.1[1..])
         case None => None
         case Some(q) => Some(([p.0] + q.0, q.1)))
      else if Opens(p.1, [93]) then Some(([p.0], p.1[1..]))
      else None
  }

  function ParseMember(s: JsString): (r: Option<(Member, JsString)>)
    decreases |s|, 1
    ensures r.Some? ==> |r.value.1| < |s|
  {
    if !Opens(s, [QUOTE]) then None else
      match ReadChars(s[1..])
      case None => None
      case Some(p) =>
        if !Opens(p.1, [COLON]) then None else
          match ParseValue(p.1[1..])
          case None => None
          case Some(q) => Some((Member(p.0, q.0), q.1))
  }

  function ParseMembers(s: JsString): (r: Option<(seq<Member>, JsString)>)
    decreases |s|, 2
    ensures r.Some? ==> |r.value.1| < |s|
  {
    match ParseMember(s)
    case None => None
    case Some(p) =>
      if Opens(p.1, [COMMA]) then
        (match ParseMembers(p.1[1..])
         case None => None
         case Some(q) => Some(([p.0] + q.0, q.1)))
      else if Opens(p.1, [125]) then Some(([p.0], p.1[1..]))
      else None
  }

  /** A whole text. */
  function Parse(s: JsString): Option<Json> {
    match ParseValue(s)
    case None => None
    case Some(p) => if p.1 == [] then Some(p.0) else None
  }

  // ---------------------------------------------------------------------------------------------
  // Strings

  lemma HexUnitOfHex4(u: Unit)
    ensures HexUnit(Hex4(u)) == Some(u)
  {
    var a: nat, b: nat, c: nat := u / 0x10 / 0x10 / 0x10, u / 0x10 / 0x10, u / 0x10;
    assert b == a * 0x10 + b % 0x10 && c == b * 0x10 + c % 0x10 && u == c * 0x10 + u % 0x10;
  }

  /** Reading one printed unit. */
  lemma ReadEscape(u: Unit, t: JsString)
    ensures ReadChars(Escape(u) + t) == Prepend(u, ReadChars(t))
  {
    hide ReadChars, Hex4, HexUnit, Escape;
    EscapeCases(u);
    if Escape(u) == [u] {
      ReadRaw(u, t);
    } else if Escape(u) == [BACKSLASH, 117] + Hex4(u) {
      ReadUnicode(u, t);
    } else {
      ReadShort(Escape(u)[1], u, t);
      assert Escape(u) == [BACKSLASH, Escape(u)[1]];
    }
  }

  /** An escape is the unit itself, a two-character escape, or four hex digits. */
  lemma EscapeCases(u: Unit)
    ensures var e := Escape(u);
      || (e == [u] && u != QUOTE && u != BACKSLASH)
      || e == [BACKSLASH, 117] + Hex4(u)
      || (|e| == 2 && e[0] == BACKSLASH && e[1] != 117 && Unescape(e[1]) == Some(u))
  {
  }

  lemma ReadShort(c: Unit, u: Unit, t: JsString)
    requires c != 117 && Unescape(c) == Some(u)
    ensures ReadChars([BACKSLASH, c] + t) == Prepend(u, ReadChars(t))
  {
    assert ([BACKSLASH, c] + t)[2..] == t;
  }

  lemma ReadUnicode(u: Unit, t: JsString)
    ensures ReadChars([BACKSLASH, 117] + Hex4(u) + t) == Prepend(u, ReadChars(t))
  {
    hide HexUnit, Hex4;
    HexUnitOfHex4(u);
    var s := [BACKSLASH, 117] + Hex4(u) + t;
    assert |Hex4(u)| == 4 by { FourDigits(u); }
    assert s[2..6] == Hex4(u) && s[6..] == t;
  }

  lemma FourDigits(u: Unit)
    ensures |Hex4(u)| == 4
  {
  }

  lemma ReadRaw(u: Unit, t: JsString)
    requires u != QUOTE && u != BACKSLASH
    ensures ReadChars([u] + t) == Prepend(u, ReadChars(t))
  {
    assert ([u] + t)[1..] == t;
  }

  lemma ReadEnd(rest: JsString)
    ensures ReadChars([QUOTE] + rest) == Some(([], rest))
  {
    assert ([QUOTE] + rest)[1..] == rest;
  }

  lemma BodyUnfold(s: JsString)
    ensures Body(s) ==
      if s == [] then []
      else if PairFirst(s) then s[..2] + Body(s[2..])
      else Escape(s[0]) + Body(s[1..])
  {
  }

  lemma {:induction false} ReadBody(s: JsString, rest: JsString)
    ensures ReadChars(Body(s) + ([QUOTE] + rest)) == Some((s, rest))
    decreases |s|
  {
    hide ReadChars, Body, Escape;
    var tail := [QUOTE] + rest;
    BodyUnfold(s);
    if s == [] {
      ReadEnd(rest);
      assert [] + tail == tail;
    } else if PairFirst(s) {
      ReadBody(s[2..], rest);
      var t := Body(s[2..]) + tail;
      ReadRaw(s[1], t);
      ReadRaw(s[0], [s[1]] + t);
      assert s[..2] + Body(s[2..]) + tail == [s[0]] + ([s[1]] + t);
      assert s == [s[0]] + ([s[1]] + s[2..]);
    } else {
      ReadBody(s[1..], rest);
      ReadEscape(s[0], Body(s[1..]) + tail);
      assert Escape(s[0]) + Body(s[1..]) + tail == Escape(s[0]) + (Body(s[1..]) + tail);
      assert s == [s[0]] + s[1..];
    }
  }

  // ---------------------------------------------------------------------------------------------
  // No literal is shorter

  /** A literal that section 7 of RFC 8259 allows, in text that can be encoded: no control character stands for
      itself, and no surrogate stands alone. */
  predicate Lawful(lit: JsString) {
    WellFormed(lit) && forall i :: 0 <= i < |lit| ==> lit[i] >= 32
  }

  lemma LawfulTail(lit: JsString)
    requires Lawful(lit) && lit != []
    ensures if PairFirst(lit) then Lawful(lit[2..]) else !High(lit[0]) && !Low(lit[0]) && Lawful(lit[1..])
  {
    var n := First(lit).1;
    assert forall i :: 0 <= i < |lit[n..]| ==> lit[n..][i] == lit[n + i];
  }

  lemma {:induction false} LawfulDrop(lit: JsString, n: nat)
    requires Lawful(lit) && n <= |lit| && forall i :: 0 <= i < n ==> !High(lit[i])
    ensures Lawful(lit[n..])
  {
    hide Lawful;
    if n == 0 {
      assert lit[0..] == lit;
    } else {
      LawfulTail(lit);
      LawfulDrop(lit[1..], n - 1);
      assert lit[1..][n - 1..] == lit[n..];
    }
  }

  /** What one more unit costs: nothing beyond its escape, and the escape is the shortest form of the unit. */
  lemma OneMore(u: Unit, t: JsString)
    ensures |Body([u] + t)| <= 6 + |Body(t)|
    ensures (exists c :: Unescape(c) == Some(u)) ==> |Body([u] + t)| <= 2 + |Body(t)|
    ensures u >= 32 && u != QUOTE && u != BACKSLASH && !High(u) && !Low(u) ==> |Body([u] + t)| == 1 + |Body(t)|
  {
    hide Body;
    BodyUnfold([u] + t);
    BodyUnfold(t);
    assert ([u] + t)[1..] == t;
    if PairFirst([u] + t) { assert ([u] + t)[2..] == t[1..]; }
    FourDigits(u);
  }

  lemma RawPair(h: Unit, l: Unit, t: JsString)
    requires High(h) && Low(l)
    ensures |Body([h, l] + t)| == 2 + |Body(t)|
  {
    assert ([h, l] + t)[2..] == t;
  }

  lemma HexUnitsAreLow(s: JsString)
    requires |s| == 4 && HexUnit(s) != None
    ensures forall i :: 0 <= i < 4 ==> !High(s[i])
  {
  }

  /** Of all literals of a string the canonical one is as short as any. */
  lemma {:induction false} QuoteShortest(s: JsString, lit: JsString)
    requires Lawful(lit) && ReadChars(lit) == Some((s, []))
    ensures |Quote(s)| <= 1 + |lit|
    decreases |lit|
  {
    hide Lawful, WellFormed, Body, HexUnit, Unescape, ReadChars;
    ReadStep(lit);
    if lit[0] == QUOTE {
      BodyUnfold([]);
    } else if lit[0] == BACKSLASH && lit[1] == 117 {
      HexUnitsAreLow(lit[2..6]);
      var u := HexUnit(lit[2..6]).value;
      forall i | 0 <= i < 6 ensures !High(lit[i]) { if i >= 2 { assert lit[i] == lit[2..6][i - 2]; } }
      LawfulDrop(lit, 6);
      QuoteShortest(s[1..], lit[6..]);
      OneMore(u, s[1..]);
      assert s == [u] + s[1..];
    } else if lit[0] == BACKSLASH {
      var u := Unescape(lit[1]).value;
      EscapesAreLow(lit[1]);
      LawfulDrop(lit, 2);
      QuoteShortest(s[1..], lit[2..]);
      OneMore(u, s[1..]);
      assert s == [u] + s[1..];
    } else {
      LawfulTail(lit);
      if PairFirst(lit) {
        ReadStep(lit[1..]);
        assert lit[1..][1..] == lit[2..];
        QuoteShortest(s[2..], lit[2..]);
        RawPair(lit[0], lit[1], s[2..]);
        assert s == [lit[0], lit[1]] + s[2..];
      } else {
        QuoteShortest(s[1..], lit[1..]);
        NoControl(lit);
        OneMore(lit[0], s[1..]);
        assert s == [lit[0]] + s[1..];
      }
    }
  }

  lemma {:induction false} BodyNoControl(s: JsString)
    ensures forall i :: 0 <= i < |Body(s)| ==> Body(s)[i] >= 32
    decreases |s|
  {
    hide Body, Escape;
    BodyUnfold(s);
    if PairFirst(s) {
      BodyNoControl(s[2..]);
    } else if s != [] {
      BodyNoControl(s[1..]);
      EscapeNoControl(s[0]);
    }
  }

  lemma EscapeNoControl(u: Unit)
    ensures forall i :: 0 <= i < |Escape(u)| ==> Escape(u)[i] >= 32
  {
  }

  lemma EscapesAreLow(c: Unit)
    ensures Unescape(c) != None ==> !High(c)
  {
  }

  lemma NoControl(lit: JsString)
    requires Lawful(lit) && lit != []
    ensures lit[0] >= 32
  {
  }

  /** Reading one unit of a literal. */
  lemma ReadStep(lit: JsString)
    requires ReadChars(lit).Some?
    ensures lit != []
    ensures lit[0] == QUOTE ==> ReadChars(lit).value == ([], lit[1..])
    ensures lit[0] != QUOTE ==> ReadChars(lit).value.0 != []
    ensures lit[0] != QUOTE && lit[0] != BACKSLASH ==>
      ReadChars(lit[1..]) == Some((ReadChars(lit).value.0[1..], ReadChars(lit).value.1))
      && ReadChars(lit).value.0[0] == lit[0]
    ensures lit[0] == BACKSLASH ==> |lit| >= 2
    ensures lit[0] == BACKSLASH && lit[1] == 117 ==>
      |lit| >= 6 && HexUnit(lit[2..6]) != None && ReadChars(lit).value.0[0] == HexUnit(lit[2..6]).value
      && ReadChars(lit[6..]) == Some((ReadChars(lit).value.0[1..], ReadChars(lit).value.1))
    ensures lit[0] == BACKSLASH && lit[1] != 117 ==>
      Unescape(lit[1]) != None && ReadChars(lit).value.0[0] == Unescape(lit[1]).value
      && ReadChars(lit[2..]) == Some((ReadChars(lit).value.0[1..], ReadChars(lit).value.1))
  {
    hide HexUnit, Unescape;
  }

  // ---------------------------------------------------------------------------------------------
  // Values

  /** What Normal produces: nothing undefined inside, numbers finite, zero unsigned. */
  predicate Plain(v: Json) {
    match v
    case Undefined => false
    case Num(x) => (x.Zero? && !x.neg) || x.Finite?
    case Arr(items) => PlainItems(items)
    case Obj(members) => PlainMembers(members)
    case _ => true
  }

  predicate PlainItems(items: seq<Json>) {
    items == [] || (Plain(items[0]) && PlainItems(items[1..]))
  }

  predicate PlainMembers(ms: seq<Member>) {
    ms == [] || (Plain(ms[0].value) && PlainMembers(ms[1..]))
  }

  lemma {:induction false} NormalIsPlain(v: Json)
    requires !v.Undefined?
    ensures Plain(Normal(v))
    decreases v
  {
    match v {
      case Arr(items) => NormalItemsPlain(items);
      case Obj(members) =>
        NormalMembersPlain(members);
        SortPlain(NormalMembers(members));
      case _ =>
    }
  }

  lemma {:induction false} NormalItemsPlain(items: seq<Json>)
    ensures PlainItems(NormalItems(items))
    decreases items
  {
    if items != [] {
      if !items[0].Undefined? { NormalIsPlain(items[0]); }
      NormalItemsPlain(items[1..]);
      var n := if items[0].Undefined? then Null else Normal(items[0]);
      assert ([n] + NormalItems(items[1..]))[1..] == NormalItems(items[1..]);
    }
  }

  lemma {:induction false} NormalMembersPlain(ms: seq<Member>)
    ensures PlainMembers(NormalMembers(ms))
    decreases ms
  {
    if ms != [] {
      NormalMembersPlain(ms[1..]);
      if !ms[0].value.Undefined? {
        NormalIsPlain(ms[0].value);
        var n := Member(ms[0].name, Normal(ms[0].value));
        assert ([n] + NormalMembers(ms[1..]))[1..] == NormalMembers(ms[1..]);
      }
    }
  }

  lemma {:induction false} InsertPlain(m: Member, ms: seq<Member>)
    requires Plain(m.value) && PlainMembers(ms)
    ensures PlainMembers(Insert(m, ms))
  {
    if ms == [] || Leq(m.name, ms[0].name) {
      assert ([m] + ms)[1..] == ms;
    } else {
      InsertPlain(m, ms[1..]);
      assert ([ms[0]] + Insert(m, ms[1..]))[1..] == Insert(m, ms[1..]);
    }
  }

  lemma {:induction false} SortPlain(ms: seq<Member>)
    requires PlainMembers(ms)
    ensures PlainMembers(Sort(ms))
  {
    if ms != [] {
      SortPlain(ms[1..]);
      InsertPlain(ms[0], Sort(ms[1..]));
    }
  }

  /** What may follow a value inside a text. */
  predicate Follows(rest: JsString) {
    rest == [] || rest[0] == COMMA || rest[0] == 93 || rest[0] == 125
  }

  lemma {:induction false} ParseEmit(v: Json, rest: JsString)
    requires Plain(v) && Follows(rest)
    ensures ParseValue(Emit(v) + rest) == Some((v, rest))
    decreases v
  {
    match v {
      case Null => ParseWord(v, rest);
      case Bool(_) => ParseWord(v, rest);
      case Num(x) => ParseNumber(x, rest);
      case Str(s) => ParseString(s, rest);
      case Arr(items) =>
        if items == [] {
          assert (Emit(v) + rest)[1..] == [93] + rest && (Emit(v) + rest)[2..] == rest;
        } else {
          ParseEmitItems(items, rest);
          ParseBracket(v, rest);
        }
      case Obj(members) =>
        if members == [] {
          assert (Emit(v) + rest)[1..] == [125] + rest && (Emit(v) + rest)[2..] == rest;
        } else {
          ParseEmitMembers(members, rest);
          ParseBracket(v, rest);
        }
    }
  }

  lemma ParseWord(v: Json, rest: JsString)
    requires v.Null? || v.Bool?
    ensures ParseValue(Emit(v) + rest) == Some((v, rest))
  {
    var s := Emit(v) + rest;
    assert s[..|Emit(v)|] == Emit(v) && s[|Emit(v)|..] == rest;
    assert s[0] == Emit(v)[0];
    if v == Bool(false) { assert Emit(Null)[0] != s[0] && Emit(Bool(true))[0] != s[0]; }
    if v == Bool(true) { assert Emit(Null)[0] != s[0]; }
    NotOpens(s, Emit(Null));
    NotOpens(s, Emit(Bool(true)));
  }

  lemma NotOpens(s: JsString, word: JsString)
    requires s != [] && word != []
    ensures s[0] != word[0] ==> !Opens(s, word)
  {
  }

  lemma ParseNumber(x: Number, rest: JsString)
    requires Plain(Num(x)) && Follows(rest)
    ensures ParseValue(Emit(Num(x)) + rest) == Some((Num(x), rest))
  {
    hide Numerals.Read, Numerals.Number, Numerals.Print;
    var s := Emit(Num(x)) + rest;
    Numerals.ReadPrint(x, rest);
    NumberStarts(x);
    assert s[0] == Numerals.Print(x)[0];
    NotOpens(s, Emit(Null));
    NotOpens(s, Emit(Bool(true)));
    NotOpens(s, Emit(Bool(false)));
  }

  lemma NumberStarts(x: Number)
    requires x.Zero? || x.Finite?
    ensures Numerals.Print(x) != [] && (Numerals.Print(x)[0] == 45 || 48 <= Numerals.Print(x)[0] <= 57)
  {
    if x.Finite? {
      Numerals.LayoutIsParts(x.digits, x.n);
    }
  }

  lemma ParseString(s: JsString, rest: JsString)
    ensures ParseValue(Quote(s) + rest) == Some((Str(s), rest))
  {
    hide ReadChars, Body;
    var t := Quote(s) + rest;
    assert t[1..] == Body(s) + ([QUOTE] + rest);
    ReadBody(s, rest);
  }

  /** A nonempty array or object is its opening bracket and the parse of what follows. */
  lemma ParseBracket(v: Json, rest: JsString)
    requires (v.Arr? && v.items != []) || (v.Obj? && v.members != [])
    requires v.Arr? ==> ParseItems(EmitItems(v.items) + ([93] + rest)) == Some((v.items, rest))
    requires v.Obj? ==> ParseMembers(EmitMembers(v.members) + ([125] + rest)) == Some((v.members, rest))
    ensures ParseValue(Emit(v) + rest) == Some((v, rest))
  {
    hide ParseItems, ParseMembers, EmitItems, EmitMembers;
    var s := Emit(v) + rest;
    if v.Arr? {
      assert s[1..] == EmitItems(v.items) + ([93] + rest);
      ItemsStart(v.items, [93] + rest);
    } else {
      assert s[1..] == EmitMembers(v.members) + ([125] + rest);
      MembersStart(v.members, [125] + rest);
    }
  }

  /** No value starts with a closing bracket. */
  lemma ItemsStart(items: seq<Json>, rest: JsString)
    requires items != [] && ParseItems(EmitItems(items) + rest).Some?
    ensures !Opens(EmitItems(items) + rest, [93])
  {
    hide Numerals.Read, EmitItems;
    var s := EmitItems(items) + rest;
    if Opens(s, [93]) {
      assert s[0] == 93;
      NumberNeverCloses(s);
    }
  }

  lemma NumberNeverCloses(s: JsString)
    requires s != [] && s[0] == 93
    ensures ParseValue(s) == None
  {
    NotOpens(s, Emit(Null));
    NotOpens(s, Emit(Bool(true)));
    NotOpens(s, Emit(Bool(false)));
    assert Numerals.Take(s) == [];
  }

  lemma MembersStart(ms: seq<Member>, rest: JsString)
    requires ms != [] && ParseMembers(EmitMembers(ms) + rest).Some?
    ensures !Opens(EmitMembers(ms) + rest, [125])
  {
    hide EmitMembers;
  }

  lemma {:induction false} ParseEmitItems(items: seq<Json>, rest: JsString)
    requires items != [] && PlainItems(items)
    ensures ParseItems(EmitItems(items) + ([93] + rest)) == Some((items, rest))
    decreases items
  {
    hide ParseValue, Emit;
    var tail := [93] + rest;
    if |items| == 1 {
      ParseEmit(items[0], tail);
      assert EmitItems(items) + tail == Emit(items[0]) + tail;
      assert tail[1..] == rest && items == [items[0]];
    } else {
      var more := EmitItems(items[1..]) + tail;
      ParseEmitItems(items[1..], rest);
      ParseEmit(items[0], [COMMA] + more);
      assert EmitItems(items) + tail == Emit(items[0]) + ([COMMA] + more);
      assert ([COMMA] + more)[1..] == more;
      assert items == [items[0]] + items[1..];
    }
  }

  lemma ParseEmitMember(m: Member, rest: JsString)
    requires ParseValue(Emit(m.value) + rest) == Some((m.value, rest))
    ensures ParseMember(MemberText(m) + rest) == Some((m, rest))
  {
    hide ParseValue, Emit, ReadChars, Body;
    var value := Emit(m.value) + rest;
    var s := MemberText(m) + rest;
    var after := [COLON] + value;
    ReadBody(m.name, after);
    assert s[1..] == Body(m.name) + ([QUOTE] + after);
    assert after[1..] == value;
  }

  lemma {:induction false} ParseEmitMembers(ms: seq<Member>, rest: JsString)
    requires ms != [] && PlainMembers(ms)
    ensures ParseMembers(EmitMembers(ms) + ([125] + rest)) == Some((ms, rest))
    decreases ms
  {
    hide ParseMember, ParseMembers, ParseValue, Emit, EmitMembers, Quote, MemberText;
    var tail := [125] + rest;
    EmitMembersStep(ms);
    if |ms| == 1 {
      ParseEmit(ms[0].value, tail);
      ParseEmitMember(ms[0], tail);
      assert EmitMembers(ms) + tail == MemberText(ms[0]) + tail;
      LastMember(ms[0], rest);
      assert ms == [ms[0]];
    } else {
      var more := EmitMembers(ms[1..]) + tail;
      ParseEmitMembers(ms[1..], rest);
      ParseEmit(ms[0].value, [COMMA] + more);
      ParseEmitMember(ms[0], [COMMA] + more);
      assert EmitMembers(ms) + tail == MemberText(ms[0]) + ([COMMA] + more);
      NextMember(ms[0], more, ms[1..], rest);
      assert ms == [ms[0]] + ms[1..];
    }
  }

  lemma LastMember(m: Member, rest: JsString)
    requires ParseMember(MemberText(m) + ([125] + rest)) == Some((m, [125] + rest))
    ensures ParseMembers(MemberText(m) + ([125] + rest)) == Some(([m], rest))
  {
    assert ([125] + rest)[1..] == rest;
  }

  lemma NextMember(m: Member, more: JsString, ms: seq<Member>, rest: JsString)
    requires ParseMember(MemberText(m) + ([COMMA] + more)) == Some((m, [COMMA] + more))
    requires ParseMembers(more) == Some((ms, rest)) && |more| < |MemberText(m) + ([COMMA] + more)|
    ensures ParseMembers(MemberText(m) + ([COMMA] + more)) == Some(([m] + ms, rest))
  {
    assert ([COMMA] + more)[1..] == more;
  }

  /** Parsing the canonical text of any value gives the value back, up to what Normal describes. */
  lemma ParseStringify(v: Json)
    requires !v.Undefined?
    ensures Stringify(v).Some? && Parse(Stringify(v).value) == Some(Normal(v))
  {
    hide ParseValue, Emit, Normal;
    NormalIsPlain(v);
    ParseEmit(Normal(v), []);
    assert Emit(Normal(v)) + [] == Emit(Normal(v));
  }

  /** Equal texts come from values with one normal form. */
  lemma StringifyInjective(v: Json, w: Json)
    requires !v.Undefined? && !w.Undefined?
    ensures Stringify(v) == Stringify(w) <==> Normal(v) == Normal(w)
  {
    hide Parse, Normal;
    ParseStringify(v);
    ParseStringify(w);
  }
}
