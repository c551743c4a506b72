/** The older canonicalizer of the record signer: it rebuilds each object with sorted assignments and lets
    JSON.stringify enumerate it, which moves array-index names to the front in numeric order and loses a member
    named __proto__. When that is the canonical text, exactly. */
module Legacy {
  import opened Bytes
  import opened Json
  import opened JsonEquality
  import opened Objects
  import JsonReader
  import Numerals

  predicate AllDigits(name: JsString) {
    forall i :: 0 <= i < |name| ==> Numerals.IsDigit(name[i])
  }

  function IndexValue(name: JsString): nat { Numerals.DigitsValue(Numerals.Take(name)) }

  /** An array index: the decimal numeral of a number below 2^32 - 1. */
  predicate IsIndex(name: JsString) {
    name != [] && AllDigits(name) && (|name| == 1 || name[0] != 48) && IndexValue(name) < 0xFFFF_FFFF
  }

  function Indices(ms: seq<Member>): seq<Member> {
    if ms == [] then [] else (if IsIndex(ms[0].name) then [ms[0]] else []) + Indices(ms[1..])
  }

  function Others(ms: seq<Member>): seq<Member> {
    if ms == [] then [] else (if IsIndex(ms[0].name) then [] else [ms[0]]) + Others(ms[1..])
  }

  function InsertIndex(m: Member, ms: seq<Member>): seq<Member> {
    if ms == [] || IndexValue(m.name) <= IndexValue(ms[0].name) then [m] + ms
    else [ms[0]] + InsertIndex(m, ms[1..])
  }

  function SortIndices(ms: seq<Member>): seq<Member> {
    if ms == [] then [] else InsertIndex(ms[0], SortIndices(ms[1..]))
  }

  /** The own members in the order in which they are enumerated: indices first, by value. */
  function Enumerate(ms: seq<Member>): seq<Member> { SortIndices(Indices(ms)) + Others(ms) }

  /** The value that JSON.stringify(canon(v)) prints. */
  function Legacy(v: Json): Json {
    match v
    case Arr(items) => Arr(LegacyItems(items))
    case Obj(ms) => Obj(Enumerate(Sort(LegacyMembers(ms))))
    case _ => Normal(v)
  }

  function LegacyItems(items: seq<Json>): seq<Json> {
    if items == [] then [] else
      [if items[0].Undefined? then Null else Legacy(items[0])] + LegacyItems(items[1..])
  }

  function LegacyMembers(ms: seq<Member>): seq<Member> {
    if ms == [] then []
    else if ms[0].value.Undefined? || ms[0].name == PROTO then LegacyMembers(ms[1..])
    else [Member(ms[0].name, Legacy(ms[0].value))] + LegacyMembers(ms[1..])
  }

  function LegacyText(v: Json): Option<JsString> {
    if v.Undefined? then None else Some(Emit(Legacy(v)))
  }

  // ---------------------------------------------------------------------------------------------
  // When nothing is disturbed

  predicate Live(ms: seq<Member>, i: nat) { i < |ms| && !ms[i].value.Undefined? }

  /** No array index has a name before it, by UTF-16, that enumeration puts after it. */
  ghost predicate NamesInOrder(ms: seq<Member>) {
    forall i: nat, j: nat :: Live(ms, i) && Live(ms, j) && IsIndex(ms[j].name) && Leq(ms[i].name, ms[j].name) ==>
      IsIndex(ms[i].name) && IndexValue(ms[i].name) <= IndexValue(ms[j].name)
  }

  ghost predicate Undisturbed(v: Json) {
    match v
    case Arr(items) => forall i :: 0 <= i < |items| ==> Undisturbed(items[i])
    case Obj(ms) =>
      && NamesInOrder(ms)
      && (forall i: nat :: Live(ms, i) ==> ms[i].name != PROTO)
      && forall i :: 0 <= i < |ms| ==> Undisturbed(ms[i].value)
    case _ => true
  }

  // ---------------------------------------------------------------------------------------------
  // Enumeration

  lemma {:induction false} InsertIndexMembers(m: Member, ms: seq<Member>)
    ensures multiset(InsertIndex(m, ms)) == multiset{m} + multiset(ms)
  {
    if ms == [] || IndexValue(m.name) <= IndexValue(ms[0].name) {
    } else {
      InsertIndexMembers(m, ms[1..]);
      assert ms == [ms[0]] + ms[1..];
    }
  }

  lemma {:induction false} SortIndicesMembers(ms: seq<Member>)
    ensures multiset(SortIndices(ms)) == multiset(ms)
  {
    if ms != [] {
      SortIndicesMembers(ms[1..]);
      InsertIndexMembers(ms[0], SortIndices(ms[1..]));
      assert ms == [ms[0]] + ms[1..];
    }
  }

  lemma {:induction false} PartsMembers(ms: seq<Member>)
    ensures multiset(Indices(ms)) + multiset(Others(ms)) == multiset(ms)
    ensures forall m :: m in Indices(ms) ==> IsIndex(m.name)
    ensures forall m :: m in Others(ms) ==> !IsIndex(m.name)
  {
    if ms != [] {
      PartsMembers(ms[1..]);
      assert ms == [ms[0]] + ms[1..];
    }
  }

  /** Enumeration permutes the members. */
  lemma EnumerateMembers(ms: seq<Member>)
    ensures multiset(Enumerate(ms)) == multiset(ms)
    ensures forall m :: m in Enumerate(ms) <==> m in ms
  {
    PartsMembers(ms);
    SortIndicesMembers(Indices(ms));
    forall m ensures m in Enumerate(ms) <==> m in ms {
      assert m in Enumerate(ms) <==> m in multiset(Enumerate(ms));
      assert m in ms <==> m in multiset(ms);
    }
  }

  predicate ByValue(ms: seq<Member>) {
    forall i, j :: 0 <= i < j < |ms| ==> IndexValue(ms[i].name) <= IndexValue(ms[j].name)
  }

  /** A bound of the members and of the one inserted bounds the result. */
  lemma {:induction false} InsertIndexAbove(m: Member, ms: seq<Member>, v: nat)
    requires v <= IndexValue(m.name) && forall i :: 0 <= i < |ms| ==> v <= IndexValue(ms[i].name)
    ensures forall k :: 0 <= k < |InsertIndex(m, ms)| ==> v <= IndexValue(InsertIndex(m, ms)[k].name)
  {
    hide IndexValue;
    if ms != [] && IndexValue(m.name) > IndexValue(ms[0].name) { InsertIndexAbove(m, ms[1..], v); }
  }

  lemma {:induction false} InsertIndexByValue(m: Member, ms: seq<Member>)
    requires ByValue(ms)
    ensures ByValue(InsertIndex(m, ms))
  {
    hide IndexValue;
    if ms != [] && IndexValue(m.name) > IndexValue(ms[0].name) {
      InsertIndexByValue(m, ms[1..]);
      InsertIndexAbove(m, ms[1..], IndexValue(ms[0].name));
    }
  }

  lemma {:induction false} SortIndicesByValue(ms: seq<Member>)
    ensures ByValue(SortIndices(ms))
  {
    if ms != [] {
      SortIndicesByValue(ms[1..]);
      InsertIndexByValue(ms[0], SortIndices(ms[1..]));
    }
  }

  predicate InOrder(ms: seq<Member>) {
    forall i, j :: 0 <= i < j < |ms| && IsIndex(ms[j].name) ==>
      IsIndex(ms[i].name) && IndexValue(ms[i].name) <= IndexValue(ms[j].name)
  }

  lemma {:induction false} NoIndices(ms: seq<Member>)
    requires forall i :: 0 <= i < |ms| ==> !IsIndex(ms[i].name)
    ensures Indices(ms) == [] && Others(ms) == ms
  {
    if ms != [] { NoIndices(ms[1..]); }
  }

  lemma {:induction false} EnumerateInOrder(ms: seq<Member>)
    requires InOrder(ms)
    ensures Enumerate(ms) == ms
  {
    hide IsIndex, IndexValue, Enumerate;
    if ms == [] {
      NoIndices(ms);
      OthersOnly(ms);
    } else if IsIndex(ms[0].name) {
      EnumerateInOrder(ms[1..]);
      EnumerateStep(ms[0], ms[1..]);
      assert ms == [ms[0]] + ms[1..];
    } else {
      NoIndices(ms);
      OthersOnly(ms);
    }
  }

  lemma OthersOnly(ms: seq<Member>)
    requires Indices(ms) == []
    ensures Enumerate(ms) == Others(ms)
  {
  }

  /** An index before indices of larger value stays in front. */
  lemma EnumerateStep(m: Member, ms: seq<Member>)
    requires IsIndex(m.name) && Enumerate(ms) == ms
    requires ms != [] && IsIndex(ms[0].name) ==> IndexValue(m.name) <= IndexValue(ms[0].name)
    ensures Enumerate([m] + ms) == [m] + ms
  {
    hide IsIndex, IndexValue, Indices, Others, SortIndices;
    EnumerateCons(m, ms);
    FirstIndex(ms);
    var s := SortIndices(Indices(ms));
    assert s == [] || s[0] == ms[0];
    assert InsertIndex(m, s) == [m] + s;
    assert [m] + s + Others(ms) == [m] + (s + Others(ms));
  }

  lemma EnumerateCons(m: Member, ms: seq<Member>)
    requires IsIndex(m.name)
    ensures Enumerate([m] + ms) == InsertIndex(m, SortIndices(Indices(ms))) + Others(ms)
  {
    hide IsIndex, IndexValue, InsertIndex;
    assert ([m] + ms)[1..] == ms;
    assert ([m] + Indices(ms))[1..] == Indices(ms);
  }

  lemma FirstIndex(ms: seq<Member>)
    ensures SortIndices(Indices(ms)) != [] ==> IsIndex(SortIndices(Indices(ms))[0].name)
  {
    hide IsIndex, SortIndices, Indices;
    PartsMembers(ms);
    SortIndicesMembers(Indices(ms));
    var s := SortIndices(Indices(ms));
    if s != [] { assert s[0] in multiset(s); }
  }

  lemma InOrderEnumerated(ms: seq<Member>)
    requires Enumerate(ms) == ms
    ensures InOrder(ms)
  {
    hide IsIndex, IndexValue, Indices, Others, SortIndices;
    var s := SortIndices(Indices(ms));
    PartsMembers(ms);
    SortIndicesMembers(Indices(ms));
    SortIndicesByValue(Indices(ms));
    forall i, j | 0 <= i < j < |ms| && IsIndex(ms[j].name)
      ensures IsIndex(ms[i].name) && IndexValue(ms[i].name) <= IndexValue(ms[j].name)
    {
      assert ms[i] == s[i] && s[i] in multiset(s);
    }
  }

  /** On the sorted live members, order by position is order by name. */
  lemma SortedInOrder(ms: seq<Member>)
    requires DistinctNames(ms)
    ensures InOrder(Sort(NormalMembers(ms))) <==> NamesInOrder(ms)
  {
    hide Sort, NormalMembers, Normal, IsIndex, IndexValue, Leq;
    var s := Sort(NormalMembers(ms));
    NormalDistinct(ms);
    SortMembers(NormalMembers(ms));
    if InOrder(s) {
      forall i: nat, j: nat | Live(ms, i) && Live(ms, j) && IsIndex(ms[j].name) && Leq(ms[i].name, ms[j].name)
        ensures IsIndex(ms[i].name) && IndexValue(ms[i].name) <= IndexValue(ms[j].name)
      {
        var p := Position(ms, i);
        var q := Position(ms, j);
        LeqTotal(ms[i].name, ms[j].name);
      }
    }
    if NamesInOrder(ms) {
      forall p, q | 0 <= p < q < |s| && IsIndex(s[q].name)
        ensures IsIndex(s[p].name) && IndexValue(s[p].name) <= IndexValue(s[q].name)
      {
        assert s[p] in s && s[q] in s;
        InNormalMembers(ms, s[p]);
        InNormalMembers(ms, s[q]);
        var i: nat :| Carries(ms, i, s[p]);
        var j: nat :| Carries(ms, j, s[q]);
        assert Live(ms, i) && Live(ms, j);
      }
    }
  }

  lemma Position(ms: seq<Member>, i: nat) returns (p: nat)
    requires DistinctNames(ms) && Live(ms, i)
    ensures p < |Sort(NormalMembers(ms))| && Sort(NormalMembers(ms))[p].name == ms[i].name
  {
    hide Sort, NormalMembers, Normal;
    var m := Member(ms[i].name, Normal(ms[i].value));
    assert Carries(ms, i, m);
    InNormalMembers(ms, m);
    SortMembers(NormalMembers(ms));
    p :| 0 <= p < |Sort(NormalMembers(ms))| && Sort(NormalMembers(ms))[p] == m;
  }

  // ---------------------------------------------------------------------------------------------
  // The values agree exactly when nothing is disturbed

  predicate Agrees(v: Json) { Legacy(v) == Normal(v) }

  lemma {:induction false} InLegacyMembers(ms: seq<Member>, m: Member)
    ensures m in LegacyMembers(ms) <==>
      exists i: nat :: Live(ms, i) && ms[i].name == m.name != PROTO && m.value == Legacy(ms[i].value)
  {
    hide Legacy;
    if ms != [] {
      InLegacyMembers(ms[1..], m);
      if i: nat :| Live(ms[1..], i) && ms[1..][i].name == m.name != PROTO && m.value == Legacy(ms[1..][i].value) {
        assert Live(ms, i + 1);
      }
      if i: nat :| Live(ms, i) && ms[i].name == m.name != PROTO && m.value == Legacy(ms[i].value) {
        if i > 0 { assert Live(ms[1..], i - 1); } else { assert Live(ms, 0); }
      }
      if !ms[0].value.Undefined? && m == Member(ms[0].name, Legacy(ms[0].value)) { assert Live(ms, 0); }
    }
  }

  lemma {:induction false} SameMembers(ms: seq<Member>)
    requires forall i: nat :: Live(ms, i) ==> ms[i].name != PROTO && Agrees(ms[i].value)
    ensures LegacyMembers(ms) == NormalMembers(ms)
  {
    hide Legacy, Normal;
    if ms != [] {
      forall i: nat | Live(ms[1..], i) ensures ms[1..][i].name != PROTO && Agrees(ms[1..][i].value) {
        assert Live(ms, i + 1);
      }
      SameMembers(ms[1..]);
      assert !ms[0].value.Undefined? ==> Live(ms, 0);
    }
  }

  lemma {:induction false} LegacyItemsAt(items: seq<Json>, i: nat)
    requires i < |items|
    ensures |LegacyItems(items)| == |items| && LegacyItems(items)[i] == Legacy(Element(items[i]))
  {
    if |items| > 1 { LegacyItemsAt(items[1..], if i == 0 then 0 else i - 1); }
  }

  lemma ItemsAgree(items: seq<Json>)
    ensures Agrees(Arr(items)) <==> forall i :: 0 <= i < |items| ==> Agrees(items[i])
  {
    hide LegacyItems, NormalItems;
    NormalItemsLength(items);
    if items != [] { LegacyItemsAt(items, 0); } else { NoItems(); }
    forall i | 0 <= i < |items| ensures LegacyItems(items)[i] == NormalItems(items)[i] <==> Agrees(items[i]) {
      LegacyItemsAt(items, i);
      NormalItemsAt(items, i);
    }
    ArrParts(items);
    if forall i :: 0 <= i < |items| ==> Agrees(items[i]) {
      assert LegacyItems(items) == NormalItems(items);
    }
  }

  lemma NoItems()
    ensures LegacyItems([]) == []
  {
  }

  lemma ArrParts(items: seq<Json>)
    ensures Legacy(Arr(items)) == Arr(LegacyItems(items)) && Normal(Arr(items)) == Arr(NormalItems(items))
  {
  }

  lemma ObjParts(ms: seq<Member>)
    ensures Legacy(Obj(ms)) == Obj(Enumerate(Sort(LegacyMembers(ms))))
    ensures Normal(Obj(ms)) == Obj(Sort(NormalMembers(ms)))
  {
  }

  /** Equal members come from equal children and no __proto__. */
  lemma ChildrenAgree(ms: seq<Member>, i: nat)
    requires DistinctNames(ms) && Agrees(Obj(ms)) && Live(ms, i)
    ensures ms[i].name != PROTO && Agrees(ms[i].value)
  {
    hide Legacy, Normal, Sort, Enumerate, NormalMembers, LegacyMembers;
    ObjParts(ms);
    SortMembers(LegacyMembers(ms));
    SortMembers(NormalMembers(ms));
    EnumerateMembers(Sort(LegacyMembers(ms)));
    var m := Member(ms[i].name, Normal(ms[i].value));
    assert Carries(ms, i, m);
    InNormalMembers(ms, m);
    assert m in NormalMembers(ms);
    assert m in LegacyMembers(ms);
    InLegacyMembers(ms, m);
  }

  lemma ObjectAgrees(ms: seq<Member>)
    requires DistinctNames(ms)
    ensures Agrees(Obj(ms)) <==>
      NamesInOrder(ms) && forall i: nat :: Live(ms, i) ==> ms[i].name != PROTO && Agrees(ms[i].value)
  {
    hide Legacy, Normal, Sort, Enumerate, NormalMembers, LegacyMembers, Agrees, NamesInOrder;
    if Agrees(Obj(ms)) {
      forall i: nat | Live(ms, i) ensures ms[i].name != PROTO && Agrees(ms[i].value) { ChildrenAgree(ms, i); }
    }
    if forall i: nat :: Live(ms, i) ==> ms[i].name != PROTO && Agrees(ms[i].value) {
      SameMembers(ms);
      ObjectOrder(ms);
    }
  }

  lemma ObjectOrder(ms: seq<Member>)
    requires DistinctNames(ms) && LegacyMembers(ms) == NormalMembers(ms)
    ensures Agrees(Obj(ms)) <==> NamesInOrder(ms)
  {
    hide Legacy, Normal, Sort, Enumerate, NormalMembers, LegacyMembers, NamesInOrder, InOrder;
    ObjParts(ms);
    SortedInOrder(ms);
    var s := Sort(NormalMembers(ms));
    if Enumerate(s) == s { InOrderEnumerated(s); }
    if InOrder(s) { EnumerateInOrder(s); }
  }

  lemma {:induction false} AgreesExactly(v: Json)
    requires Js(v)
    ensures Agrees(v) <==> Undisturbed(v)
  {
    hide Agrees, NamesInOrder;
    match v {
      case Arr(items) =>
        ItemsAgree(items);
        forall i | 0 <= i < |items| ensures Agrees(items[i]) <==> Undisturbed(items[i]) { AgreesExactly(items[i]); }
      case Obj(ms) =>
        ObjectAgrees(ms);
        forall i | 0 <= i < |ms| ensures Agrees(ms[i].value) <==> Undisturbed(ms[i].value) {
          AgreesExactly(ms[i].value);
        }
        forall i: nat | i < |ms| && ms[i].value.Undefined? ensures Undisturbed(ms[i].value) { }
      case _ => SimpleAgrees(v);
    }
  }

  lemma SimpleAgrees(v: Json)
    requires !v.Arr? && !v.Obj?
    ensures Agrees(v)
  {
  }

  // ---------------------------------------------------------------------------------------------
  // The texts agree exactly then

  lemma {:induction false} PlainMembersAt(ms: seq<Member>)
    ensures JsonReader.PlainMembers(ms) <==> forall i :: 0 <= i < |ms| ==> JsonReader.Plain(ms[i].value)
  {
    if ms != [] {
      PlainMembersAt(ms[1..]);
      if JsonReader.PlainMembers(ms) {
        forall i | 0 <= i < |ms| ensures JsonReader.Plain(ms[i].value) {
          if i > 0 { assert ms[i] == ms[1..][i - 1]; }
        }
      }
    }
  }

  lemma EnumeratePlain(ms: seq<Member>)
    requires JsonReader.PlainMembers(ms)
    ensures JsonReader.PlainMembers(Enumerate(Sort(ms)))
  {
    hide JsonReader.PlainMembers, JsonReader.Plain, Enumerate, Sort;
    var s := Sort(ms);
    JsonReader.SortPlain(ms);
    EnumerateMembers(s);
    PlainMembersAt(s);
    PlainMembersAt(Enumerate(s));
    forall i | 0 <= i < |Enumerate(s)| ensures JsonReader.Plain(Enumerate(s)[i].value) {
      assert Enumerate(s)[i] in s;
    }
  }

  lemma {:induction false} LegacyIsPlain(v: Json)
    requires !v.Undefined?
    ensures JsonReader.Plain(Legacy(v))
  {
    match v {
      case Arr(items) => LegacyItemsPlain(items);
      case Obj(ms) =>
        LegacyMembersPlain(ms);
        EnumeratePlain(LegacyMembers(ms));
      case _ => JsonReader.NormalIsPlain(v);
    }
  }

  lemma {:induction false} LegacyItemsPlain(items: seq<Json>)
    ensures JsonReader.PlainItems(LegacyItems(items))
  {
    if items != [] {
      if !items[0].Undefined? { LegacyIsPlain(items[0]); }
      LegacyItemsPlain(items[1..]);
      var n := if items[0].Undefined? then Null else Legacy(items[0]);
      assert ([n] + LegacyItems(items[1..]))[1..] == LegacyItems(items[1..]);
    }
  }

  lemma {:induction false} LegacyMembersPlain(ms: seq<Member>)
    ensures JsonReader.PlainMembers(LegacyMembers(ms))
  {
    if ms != [] {
      LegacyMembersPlain(ms[1..]);
      if !ms[0].value.Undefined? && ms[0].name != PROTO {
        LegacyIsPlain(ms[0].value);
        var n := Member(ms[0].name, Legacy(ms[0].value));
        assert ([n] + LegacyMembers(ms[1..]))[1..] == LegacyMembers(ms[1..]);
      }
    }
  }

  /** A legacy text is the canonical text of a value exactly when that is the value it prints. */
  lemma TextsAgree(v: Json, w: Json)
    requires !v.Undefined? && !w.Undefined?
    ensures LegacyText(v) == Stringify(w) <==> Legacy(v) == Normal(w)
  {
    hide Legacy, Normal, Emit, JsonReader.ParseValue;
    LegacyIsPlain(v);
    JsonReader.NormalIsPlain(w);
    JsonReader.ParseEmit(Legacy(v), []);
    JsonReader.ParseEmit(Normal(w), []);
    assert Emit(Legacy(v)) + [] == Emit(Legacy(v)) && Emit(Normal(w)) + [] == Emit(Normal(w));
  }

  /** The legacy text is the canonical text exactly for values that nothing disturbs: no live member named
      __proto__, and array indices only where enumeration leaves them. */
  lemma LegacyIsCanonical(v: Json)
    requires Js(v) && !v.Undefined?
    ensures LegacyText(v) == Stringify(v) <==> Undisturbed(v)
  {
    hide Legacy, Normal, Emit, Undisturbed, Js, LegacyText, Stringify;
    AgreesExactly(v);
    TextsAgree(v, v);
  }

  /** No name that an engine treats in its own way. */
  predicate OrdinaryNames(v: Json) {
    match v
    case Arr(items) => forall i :: 0 <= i < |items| ==> OrdinaryNames(items[i])
    case Obj(ms) =>
      forall i :: 0 <= i < |ms| ==> !IsIndex(ms[i].name) && ms[i].name != PROTO && OrdinaryNames(ms[i].value)
    case _ => true
  }

  lemma {:induction false} OrdinaryIsUndisturbed(v: Json)
    requires OrdinaryNames(v)
    ensures Undisturbed(v)
  {
    match v {
      case Arr(items) =>
        forall i | 0 <= i < |items| ensures Undisturbed(items[i]) { OrdinaryIsUndisturbed(items[i]); }
      case Obj(ms) =>
        forall i | 0 <= i < |ms| ensures Undisturbed(ms[i].value) { OrdinaryIsUndisturbed(ms[i].value); }
      case _ =>
    }
  }

  lemma ValueOfTwo(a: Numerals.Digit, b: Numerals.Digit)
    ensures Numerals.DigitsValue([a]) == a && Numerals.DigitsValue([a, b]) as int == 10 * a as int + b as int
  {
    assert [a][..0] == [] && [a, b][..1] == [a];
  }

  lemma TakeOfTwo(s: JsString)
    requires AllDigits(s) && 1 <= |s| <= 2
    ensures Numerals.Take(s) == if |s| == 1 then [s[0] - 48] else [s[0] - 48, s[1] - 48]
  {
    if |s| == 1 {
      assert s[1..] == [] && Numerals.Take(s[1..]) == [];
    } else {
      assert s[1..][1..] == [] && Numerals.Take(s[1..][1..]) == [];
    }
  }

  lemma TenAndNine(ten: JsString, nine: JsString)
    requires ten == [49, 48] && nine == [57]
    ensures IsIndex(nine) && IndexValue(nine) == 9 && IndexValue(ten) == 10
  {
    hide Numerals.Take, Numerals.DigitsValue;
    TakeOfTwo(ten);
    TakeOfTwo(nine);
    ValueOfTwo(1, 0);
    ValueOfTwo(9, 0);
  }

  /** {"10": null, "9": null}: the canonical text keeps that order, the legacy text does not. */
  lemma IndicesAreReordered()
    ensures var v := Obj([Member([49, 48], Null), Member([57], Null)]); Js(v) && LegacyText(v) != Stringify(v)
  {
    hide IsIndex, IndexValue, LegacyText, Stringify;
    var ms := [Member([49, 48], Null), Member([57], Null)];
    TenAndNine(ms[0].name, ms[1].name);
    assert Leq(ms[0].name, ms[1].name) && Live(ms, 0) && Live(ms, 1);
    LegacyIsCanonical(Obj(ms));
  }
}
