/** When two values are the same JSON value, said without reference to printing or sorting, and the theorem
    that the canonical text decides it. */
module JsonEquality {
  import opened Bytes
  import opened Text
  import opened Json
  import JsonReader
  import Numerals

  predicate DistinctNames(ms: seq<Member>) {
    forall i, j :: 0 <= i < j < |ms| ==> ms[i].name != ms[j].name
  }

  /** A value the language can hold: no object has two members of one name. */
  predicate Js(v: Json) {
    match v
    case Arr(items) => forall i :: 0 <= i < |items| ==> Js(items[i])
    case Obj(ms) => DistinctNames(ms) && forall i :: 0 <= i < |ms| ==> Js(ms[i].value)
    case _ => true
  }

  /** v[name]: undefined when there is no such member. */
  function Lookup(ms: seq<Member>, name: JsString): Json {
    if ms == [] then Undefined else if ms[0].name == name then ms[0].value else Lookup(ms[1..], name)
  }

  predicate NullLike(v: Json) {
    v.Null? || (v.Num? && (v.num.NaN? || v.num.Infinite?))
  }

  /** Array elements: undefined reads as null. */
  function Element(v: Json): Json { if v.Undefined? then Null else v }

  /** One JSON value: objects by their live members whatever their order, arrays by position, -0 equal to 0,
      numbers that are not finite equal to null. */
  predicate Same(v: Json, w: Json)
    decreases v
  {
    if NullLike(v) || NullLike(w) then NullLike(v) && NullLike(w)
    else
      match v
      case Num(x) => w.Num? && Numerals.Canonical(x) == Numerals.Canonical(w.num)
      case Arr(items) =>
        w.Arr? && |items| == |w.items|
        && forall i :: 0 <= i < |items| ==>
          if items[i].Undefined? then NullLike(Element(w.items[i]))
          else Same(items[i], Element(w.items[i]))
      case Obj(ms) => w.Obj? && Covers(ms, w.members) && NoOthers(ms, w.members)
      case _ => v == w
  }

  /** Every live member of a is a live member of b, with the same value. */
  predicate Covers(a: seq<Member>, b: seq<Member>)
    decreases a
  {
    forall i :: 0 <= i < |a| && !a[i].value.Undefined? ==>
      !Lookup(b, a[i].name).Undefined? && Same(a[i].value, Lookup(b, a[i].name))
  }

  /** And b has no live member of another name. */
  predicate NoOthers(a: seq<Member>, b: seq<Member>) {
    forall j :: 0 <= j < |b| && !b[j].value.Undefined? ==> !Lookup(a, b[j].name).Undefined?
  }

  // ---------------------------------------------------------------------------------------------
  // Sorted member lists

  /** Two sorted lists of distinct names with the same members are one list. */
  lemma {:induction false} SortedUnique(p: seq<Member>, q: seq<Member>)
    requires Sorted(p) && Sorted(q) && DistinctNames(p) && DistinctNames(q)
    requires forall m :: m in p <==> m in q
    ensures p == q
  {
    assert q != [] ==> q[0] in p;
    if p != [] {
      assert p[0] in q;
      var i :| 0 <= i < |q| && q[i] == p[0];
      assert q[0] in p;
      var j :| 0 <= j < |p| && p[j] == q[0];
      LeqTotal(p[0].name, q[0].name);
      assert Leq(q[0].name, p[0].name) by { if i == 0 { LeqTotal(p[0].name, p[0].name); } }
      assert Leq(p[0].name, q[0].name) by { if j == 0 { LeqTotal(p[0].name, p[0].name); } }
      assert i == 0;
      forall m ensures m in p[1..] <==> m in q[1..] {
        TailMembers(p, m);
        TailMembers(q, m);
      }
      SortedUnique(p[1..], q[1..]);
      assert p == [p[0]] + p[1..] && q == [q[0]] + q[1..];
    }
  }

  lemma TailMembers(p: seq<Member>, m: Member)
    requires p != [] && DistinctNames(p)
    ensures m in p[1..] <==> m in p && m != p[0]
  {
    if m in p && m != p[0] {
      var i :| 0 <= i < |p| && p[i] == m;
      assert p[1..][i - 1] == m;
    }
  }

  lemma SortMembers(ms: seq<Member>)
    ensures Sorted(Sort(ms)) && forall m :: m in Sort(ms) <==> m in ms
    ensures DistinctNames(ms) ==> DistinctNames(Sort(ms))
  {
    SortIsSorted(ms);
    forall m ensures m in Sort(ms) <==> m in ms {
      assert m in Sort(ms) <==> m in multiset(Sort(ms));
      assert m in ms <==> m in multiset(ms);
    }
    if DistinctNames(ms) { SortDistinct(ms); }
  }

  lemma {:induction false} SortDistinct(ms: seq<Member>)
    requires DistinctNames(ms)
    ensures DistinctNames(Sort(ms))
  {
    if ms != [] {
      SortDistinct(ms[1..]);
      var s := Sort(ms[1..]);
      SortIsSorted(ms[1..]);
      forall k | 0 <= k < |s| ensures s[k].name != ms[0].name {
        assert s[k] in multiset(s);
        assert s[k] in ms[1..];
      }
      InsertDistinct(ms[0], s);
    }
  }

  lemma {:induction false} InsertDistinct(m: Member, s: seq<Member>)
    requires DistinctNames(s) && forall k :: 0 <= k < |s| ==> s[k].name != m.name
    ensures DistinctNames(Insert(m, s))
  {
    if s != [] && !Leq(m.name, s[0].name) {
      InsertDistinct(m, s[1..]);
      InsertMembers(m, s[1..]);
      var r := Insert(m, s[1..]);
      forall k | 0 <= k < |r| ensures r[k].name != s[0].name {
        assert r[k] in multiset(r);
        if r[k] != m { assert r[k] in s[1..]; }
      }
    }
  }

  /** With distinct names, sorting forgets exactly the order. */
  lemma SortForgetsOrder(p: seq<Member>, q: seq<Member>)
    requires DistinctNames(p) && DistinctNames(q)
    ensures Sort(p) == Sort(q) <==> (forall m :: m in p <==> m in q)
  {
    SortMembers(p);
    SortMembers(q);
    if forall m :: m in p <==> m in q { SortedUnique(Sort(p), Sort(q)); }
  }

  // ---------------------------------------------------------------------------------------------
  // Live members

  /** Position i of ms carries the normal member m. */
  predicate Carries(ms: seq<Member>, i: nat, m: Member) {
    i < |ms| && ms[i].name == m.name && !ms[i].value.Undefined? && Normal(ms[i].value) == m.value
  }

  lemma {:induction false} InNormalMembers(ms: seq<Member>, m: Member)
    ensures m in NormalMembers(ms) <==> exists i: nat :: Carries(ms, i, m)
  {
    if ms != [] {
      InNormalMembers(ms[1..], m);
      if i: nat :| Carries(ms[1..], i, m) { assert Carries(ms, i + 1, m); }
      if i: nat :| Carries(ms, i, m) {
        if i > 0 { assert Carries(ms[1..], i - 1, m); }
      }
      if !ms[0].value.Undefined? && m == Member(ms[0].name, Normal(ms[0].value)) { assert Carries(ms, 0, m); }
    }
  }

  lemma {:induction false} NormalDistinct(ms: seq<Member>)
    requires DistinctNames(ms)
    ensures DistinctNames(NormalMembers(ms))
  {
    if ms != [] {
      NormalDistinct(ms[1..]);
      var r := NormalMembers(ms[1..]);
      forall k | 0 <= k < |r| ensures r[k].name != ms[0].name {
        InNormalMembers(ms[1..], r[k]);
        assert r[k] in r;
        var i: nat :| Carries(ms[1..], i, r[k]);
        assert ms[1..][i].name == ms[i + 1].name;
      }
    }
  }

  lemma {:induction false} LookupAt(ms: seq<Member>, i: nat)
    requires DistinctNames(ms) && i < |ms|
    ensures Lookup(ms, ms[i].name) == ms[i].value
  {
    if i > 0 { LookupAt(ms[1..], i - 1); }
  }

  lemma {:induction false} LookupFinds(ms: seq<Member>, name: JsString) returns (i: nat)
    requires !Lookup(ms, name).Undefined?
    ensures i < |ms| && ms[i].name == name && ms[i].value == Lookup(ms, name)
  {
    if ms[0].name == name {
      i := 0;
    } else {
      i := LookupFinds(ms[1..], name);
      i := i + 1;
    }
  }

  // ---------------------------------------------------------------------------------------------
  // Same value, same normal form

  /** The normal form of a value that the theorem below has already compared. */
  predicate Decided(v: Json, w: Json) {
    Same(v, w) <==> Normal(v) == Normal(w)
  }

  /** Objects with the same live members have the same normal members. */
  lemma ObjectsSame(a: seq<Member>, b: seq<Member>)
    requires Js(Obj(a)) && Js(Obj(b)) && Same(Obj(a), Obj(b))
    requires forall i, j :: 0 <= i < |a| && 0 <= j < |b| && !a[i].value.Undefined? && !b[j].value.Undefined? ==>
      Decided(a[i].value, b[j].value)
    ensures forall m :: m in NormalMembers(a) <==> m in NormalMembers(b)
  {
    hide Normal, Same;
    ObjectParts(a, b);
    forall m ensures m in NormalMembers(a) <==> m in NormalMembers(b) {
      InNormalMembers(a, m);
      InNormalMembers(b, m);
      if i: nat :| Carries(a, i, m) {
        var j := LookupFinds(b, a[i].name);
        assert Decided(a[i].value, b[j].value);
        assert Carries(b, j, m);
      }
      if j: nat :| Carries(b, j, m) {
        var i := LookupFinds(a, b[j].name);
        LookupAt(b, j);
        assert Decided(a[i].value, b[j].value);
        assert Carries(a, i, m);
      }
    }
  }

  lemma ObjectParts(a: seq<Member>, b: seq<Member>)
    ensures Same(Obj(a), Obj(b)) <==> Covers(a, b) && NoOthers(a, b)
  {
  }

  /** And conversely. */
  lemma ObjectsFromNormal(a: seq<Member>, b: seq<Member>)
    requires Js(Obj(a)) && Js(Obj(b)) && forall m :: m in NormalMembers(a) <==> m in NormalMembers(b)
    requires forall i, j :: 0 <= i < |a| && 0 <= j < |b| && !a[i].value.Undefined? && !b[j].value.Undefined? ==>
      Decided(a[i].value, b[j].value)
    ensures Same(Obj(a), Obj(b))
  {
    hide Normal, Same;
    forall i | 0 <= i < |a| && !a[i].value.Undefined?
      ensures !Lookup(b, a[i].name).Undefined? && Same(a[i].value, Lookup(b, a[i].name))
    {
      var m := Member(a[i].name, Normal(a[i].value));
      var j := Partner(a, b, i, m);
      assert Decided(a[i].value, b[j].value);
    }
    forall j | 0 <= j < |b| && !b[j].value.Undefined? ensures !Lookup(a, b[j].name).Undefined? {
      var m := Member(b[j].name, Normal(b[j].value));
      var i := Partner(b, a, j, m);
    }
    ObjectParts(a, b);
  }

  /** The member of b that carries what position i of a carries. */
  lemma Partner(a: seq<Member>, b: seq<Member>, i: nat, m: Member) returns (j: nat)
    requires DistinctNames(b) && Carries(a, i, m) && (m in NormalMembers(a) ==> m in NormalMembers(b))
    ensures Carries(b, j, m) && Lookup(b, m.name) == b[j].value
  {
    InNormalMembers(a, m);
    InNormalMembers(b, m);
    j :| Carries(b, j, m);
    LookupAt(b, j);
  }

  lemma {:induction false} NormalItemsAt(items: seq<Json>, i: nat)
    requires i < |items|
    ensures |NormalItems(items)| == |items| && NormalItems(items)[i] == Normal(Element(items[i]))
  {
    if i > 0 { NormalItemsAt(items[1..], i - 1); } else { NormalItemsLength(items[1..]); }
  }

  lemma {:induction false} NormalItemsLength(items: seq<Json>)
    ensures |NormalItems(items)| == |items|
  {
    if items != [] { NormalItemsLength(items[1..]); }
  }

  /** Two values are the same JSON value exactly when they have one normal form. */
  lemma {:induction false} SameIsNormal(v: Json, w: Json)
    requires Js(v) && Js(w) && !v.Undefined? && !w.Undefined?
    ensures Decided(v, w)
    decreases v
  {
    if v.Obj? && w.Obj? {
      var a, b := v.members, w.members;
      forall i, j | 0 <= i < |a| && 0 <= j < |b| && !a[i].value.Undefined? && !b[j].value.Undefined?
        ensures Decided(a[i].value, b[j].value)
      {
        SameIsNormal(a[i].value, b[j].value);
      }
      ObjectDecided(a, b);
    } else if v.Arr? && w.Arr? {
      if |v.items| == |w.items| {
        forall i | 0 <= i < |v.items| ensures Decided(Element(v.items[i]), Element(w.items[i])) {
          if v.items[i].Undefined? { NullDecided(Element(w.items[i])); }
          else { SameIsNormal(v.items[i], Element(w.items[i])); }
        }
        ArrayDecided(v, w);
      } else {
        NormalItemsLength(v.items);
        NormalItemsLength(w.items);
      }
    }
  }

  lemma NullDecided(w: Json)
    ensures Decided(Null, w)
  {
  }

  lemma ArrayDecided(v: Json, w: Json)
    requires v.Arr? && w.Arr? && |v.items| == |w.items|
    requires forall i :: 0 <= i < |v.items| ==> Decided(Element(v.items[i]), Element(w.items[i]))
    ensures Decided(v, w)
  {
    hide Normal, NormalItems;
    NormalItemsLength(v.items);
    NormalItemsLength(w.items);
    forall i | 0 <= i < |v.items|
      ensures NormalItems(v.items)[i] == NormalItems(w.items)[i] <==> Same(Element(v.items[i]), Element(w.items[i]))
    {
      NormalItemsAt(v.items, i);
      NormalItemsAt(w.items, i);
      assert Decided(Element(v.items[i]), Element(w.items[i]));
    }
    NormalOfArr(v);
    NormalOfArr(w);
    assert NormalItems(v.items) == NormalItems(w.items) <==>
      forall i :: 0 <= i < |v.items| ==> NormalItems(v.items)[i] == NormalItems(w.items)[i];
    assert forall i :: 0 <= i < |v.items| ==> (v.items[i].Undefined? ==>
      (Same(Element(v.items[i]), Element(w.items[i])) <==> NullLike(Element(w.items[i]))));
  }

  lemma NormalOfArr(v: Json)
    requires v.Arr?
    ensures Normal(v) == Arr(NormalItems(v.items))
  {
  }

  lemma ObjectDecided(a: seq<Member>, b: seq<Member>)
    requires Js(Obj(a)) && Js(Obj(b))
    requires forall i, j :: 0 <= i < |a| && 0 <= j < |b| && !a[i].value.Undefined? && !b[j].value.Undefined? ==>
      Decided(a[i].value, b[j].value)
    ensures Decided(Obj(a), Obj(b))
  {
    hide Same, Sort;
    NormalDistinct(a);
    NormalDistinct(b);
    SortForgetsOrder(NormalMembers(a), NormalMembers(b));
    if Same(Obj(a), Obj(b)) { ObjectsSame(a, b); }
    if forall m :: m in NormalMembers(a) <==> m in NormalMembers(b) { ObjectsFromNormal(a, b); }
  }

  // ---------------------------------------------------------------------------------------------
  // The canonical text decides equality

  /** Two values print alike exactly when they are the same JSON value. */
  lemma StringifyDecides(v: Json, w: Json)
    requires Js(v) && Js(w) && !v.Undefined? && !w.Undefined?
    ensures Stringify(v) == Stringify(w) <==> Same(v, w)
  {
    hide Stringify, Normal, Same;
    JsonReader.StringifyInjective(v, w);
    SameIsNormal(v, w);
  }

  /** Insertion order never changes the text. */
  lemma OrderIrrelevant(a: seq<Member>, b: seq<Member>)
    requires DistinctNames(a) && DistinctNames(b) && forall m :: m in a <==> m in b
    ensures Stringify(Obj(a)) == Stringify(Obj(b))
  {
    hide Sort, Emit;
    SortForgetsOrder(a, b);
    NormalOfSort(a);
    NormalOfSort(b);
  }

  /** The same text gives the same bytes only: canonical text is well-formed UTF-16, so its UTF-8 encoding
      decides equality too. */
  lemma BytesDecide(v: Json, w: Json)
    requires Js(v) && Js(w) && !v.Undefined? && !w.Undefined?
    ensures TextEncode(Stringify(v).value) == TextEncode(Stringify(w).value) <==> Same(v, w)
  {
    hide Stringify, Normal, Same, TextEncode;
    StringifyDecides(v, w);
    StringifyWellFormed(v);
    StringifyWellFormed(w);
    if TextEncode(Stringify(v).value) == TextEncode(Stringify(w).value) {
      TextEncodeInjective(Stringify(v).value, Stringify(w).value);
    }
  }

  /** The canonical literal is itself one of the literals of the string that it is as short as. */
  lemma QuoteIsLawful(s: JsString)
    ensures JsonReader.Lawful(Quote(s)[1..]) && JsonReader.ReadChars(Quote(s)[1..]) == Some((s, []))
  {
    hide WellFormed, Body, JsonReader.ReadChars;
    var lit := Body(s) + [QUOTE];
    assert Quote(s)[1..] == lit && lit == Body(s) + ([QUOTE] + []);
    JsonReader.ReadBody(s, []);
    JsonReader.BodyNoControl(s);
    QuoteWellFormed(s);
    WellFormedStep(Quote(s));
    FirstQuote(Quote(s));
  }

  lemma FirstQuote(s: JsString)
    requires s != [] && s[0] == QUOTE
    ensures First(s).1 == 1
  {
  }

  lemma StringifyWellFormed(v: Json)
    requires !v.Undefined?
    ensures Stringify(v).Some? && WellFormed(Stringify(v).value)
  {
    EmitWellFormed(Normal(v));
  }

  lemma {:induction false} EmitWellFormed(v: Json)
    ensures WellFormed(Emit(v))
    decreases v
  {
    hide WellFormed, Quote;
    match v {
      case Undefined => PlainIsWellFormed([]);
      case Num(x) => PrintWellFormed(x);
      case Str(s) => QuoteWellFormed(s);
      case Arr(items) =>
        EmitItemsWellFormed(items);
        PlainIsWellFormed([91]);
        PlainIsWellFormed([93]);
        WellFormedConcat([91], EmitItems(items));
        WellFormedConcat([91] + EmitItems(items), [93]);
      case Obj(members) =>
        EmitMembersWellFormed(members);
        PlainIsWellFormed([123]);
        PlainIsWellFormed([125]);
        WellFormedConcat([123], EmitMembers(members));
        WellFormedConcat([123] + EmitMembers(members), [125]);
      case _ => PlainIsWellFormed(Emit(v));
    }
  }

  lemma {:induction false} EmitItemsWellFormed(items: seq<Json>)
    ensures WellFormed(EmitItems(items))
    decreases items
  {
    hide WellFormed, Emit;
    PlainIsWellFormed([]);
    PlainIsWellFormed([COMMA]);
    if items != [] {
      EmitWellFormed(items[0]);
      EmitItemsWellFormed(items[1..]);
      WellFormedConcat([COMMA], EmitItems(items[1..]));
      var rest := if |items| == 1 then [] else [COMMA] + EmitItems(items[1..]);
      WellFormedConcat(Emit(items[0]), rest);
    }
  }

  lemma {:induction false} EmitMembersWellFormed(ms: seq<Member>)
    ensures WellFormed(EmitMembers(ms))
    decreases ms
  {
    hide WellFormed, Emit, Quote;
    PlainIsWellFormed([]);
    PlainIsWellFormed([COMMA]);
    PlainIsWellFormed([COLON]);
    if ms != [] {
      EmitWellFormed(ms[0].value);
      QuoteWellFormed(ms[0].name);
      EmitMembersWellFormed(ms[1..]);
      WellFormedConcat([COMMA], EmitMembers(ms[1..]));
      var rest := if |ms| == 1 then [] else [COMMA] + EmitMembers(ms[1..]);
      WellFormedConcat(Quote(ms[0].name), [COLON]);
      WellFormedConcat(Quote(ms[0].name) + [COLON], Emit(ms[0].value));
      WellFormedConcat(Quote(ms[0].name) + [COLON] + Emit(ms[0].value), rest);
    }
  }

  predicate Ascii(s: JsString) { forall i :: 0 <= i < |s| ==> s[i] < 128 }

  lemma PrintWellFormed(x: Number)
    ensures WellFormed(Numerals.Print(x))
  {
    if x.Finite? { LayoutAscii(x.digits, x.n); }
    assert Ascii(Numerals.Print(x));
    PlainIsWellFormed(Numerals.Print(x));
  }

  lemma LayoutAscii(ds: seq<Numerals.Digit>, n: int)
    requires ds != []
    ensures Ascii(Numerals.Layout(ds, n))
  {
    hide Numerals.Layout, Numerals.LayoutParts;
    Numerals.LayoutIsParts(ds, n);
    var (ints, frac, e) := Numerals.LayoutParts(ds, n);
    CharsAscii(ints);
    CharsAscii(frac);
    ExponentAscii(e);
  }

  lemma CharsAscii(ds: seq<Numerals.Digit>)
    ensures Ascii(Numerals.Chars(ds)) && Ascii(Numerals.FractionPart(ds))
  {
  }

  lemma ExponentAscii(e: Option<int>)
    ensures Ascii(Numerals.ExponentPart(e))
  {
    if e.Some? { CharsAscii(Numerals.Decimal(if e.value >= 0 then e.value else -e.value)); }
  }

  /** Lone surrogates leave as escapes, pairs stay pairs. */
  lemma QuoteWellFormed(s: JsString)
    ensures WellFormed(Quote(s))
  {
    hide WellFormed, Body;
    BodyWellFormed(s);
    PlainIsWellFormed([QUOTE]);
    WellFormedConcat([QUOTE], Body(s));
    WellFormedConcat([QUOTE] + Body(s), [QUOTE]);
  }

  lemma {:induction false} BodyWellFormed(s: JsString)
    ensures WellFormed(Body(s))
    decreases |s|
  {
    hide WellFormed, Escape;
    PlainIsWellFormed([]);
    if s == [] {
    } else if PairFirst(s) {
      PairWellFormed(s[..2]);
      BodyWellFormed(s[2..]);
      WellFormedConcat(s[..2], Body(s[2..]));
    } else {
      EscapePlain(s[0]);
      PlainIsWellFormed(Escape(s[0]));
      BodyWellFormed(s[1..]);
      WellFormedConcat(Escape(s[0]), Body(s[1..]));
    }
  }

  lemma PairWellFormed(s: JsString)
    requires |s| == 2 && PairFirst(s)
    ensures WellFormed(s)
  {
    assert s[2..] == [];
  }

  lemma EscapePlain(u: Unit)
    ensures forall i :: 0 <= i < |Escape(u)| ==> !High(Escape(u)[i]) && !Low(Escape(u)[i])
  {
  }
}
