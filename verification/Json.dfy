/** JavaScript values as the canonicalizer sees them, their canonical text (RFC 8785), and the parser that
    inverts it. */
module Json {
  import opened Bytes
  import opened Text
  import Numerals

  type Number = x: Numerals.Num | Numerals.Valid(x) witness Numerals.Zero(false)

  /** Undefined also stands for functions, symbols and array holes. Members are in insertion order. */
  datatype Json =
    | Undefined
    | Null
    | Bool(b: bool)
    | Num(num: Number)
    | Str(s: JsString)
    | Arr(items: seq<Json>)
    | Obj(members: seq<Member>)

  datatype Member = Member(name: JsString, value: Json)

  // ---------------------------------------------------------------------------------------------
  // Member order: the default sort, by UTF-16 code unit

  predicate Leq(a: JsString, b: JsString) {
    a == [] || (b != [] && (a[0] < b[0] || (a[0] == b[0] && Leq(a[1..], b[1..]))))
  }

  lemma {:induction false} LeqTotal(a: JsString, b: JsString)
    ensures Leq(a, b) || Leq(b, a)
    ensures Leq(a, b) && Leq(b, a) ==> a == b
    decreases |a|
  {
    if a != [] && b != [] {
      LeqTotal(a[1..], b[1..]);
      assert a == [a[0]] + a[1..] && b == [b[0]] + b[1..];
    }
  }

  lemma {:induction false} LeqTransitive(a: JsString, b: JsString, c: JsString)
    requires Leq(a, b) && Leq(b, c)
    ensures Leq(a, c)
    decreases |a|
  {
    if a != [] && a[0] == b[0] && b[0] == c[0] { LeqTransitive(a[1..], b[1..], c[1..]); }
  }

  lemma DropFirst(a: JsString, b: JsString, k: nat)
    requires 0 < k < |a| && k < |b| && a[..k] == b[..k] && a[k] < b[k]
    ensures a[1..][..k - 1] == b[1..][..k - 1] && a[1..][k - 1] < b[1..][k - 1]
  {
    assert a[1..][..k - 1] == a[..k][1..] && b[1..][..k - 1] == b[..k][1..];
  }

  /** The order is decided at the first code unit that differs; a prefix comes first. */
  lemma {:induction false} LeqExactly(a: JsString, b: JsString)
    ensures Leq(a, b) <==>
      a <= b || exists k :: 0 <= k < |a| && k < |b| && a[..k] == b[..k] && a[k] < b[k]
    decreases |a|
  {
    if a != [] && b != [] {
      LeqExactly(a[1..], b[1..]);
      assert a == [a[0]] + a[1..] && b == [b[0]] + b[1..];
      if a[0] == b[0] {
        if k: nat :| 0 <= k < |a| && k < |b| && a[..k] == b[..k] && a[k] < b[k] {
          DropFirst(a, b, k);
        }
        if k: nat :| 0 <= k < |a[1..]| && k < |b[1..]| && a[1..][..k] == b[1..][..k] && a[1..][k] < b[1..][k] {
          assert a[..k + 1] == [a[0]] + a[1..][..k] && b[..k + 1] == [b[0]] + b[1..][..k];
          assert a[k + 1] < b[k + 1];
        }
      } else {
        assert a[..0] == b[..0];
        forall k | 0 < k < |a| && k < |b| ensures a[..k] != b[..k] { assert a[..k][0] != b[..k][0]; }
      }
    }
  }

  function Insert(m: Member, ms: seq<Member>): seq<Member> {
    if ms == [] || Leq(m.name, ms[0].name) then [m] + ms else [ms[0]] + Insert(m, ms[1..])
  }

  function Sort(ms: seq<Member>): seq<Member> {
    if ms == [] then [] else Insert(ms[0], Sort(ms[1..]))
  }

  predicate Sorted(ms: seq<Member>) {
    forall i, j :: 0 <= i < j < |ms| ==> Leq(ms[i].name, ms[j].name)
  }

  lemma {:induction false} InsertMembers(m: Member, ms: seq<Member>)
    ensures multiset(Insert(m, ms)) == multiset{m} + multiset(ms)
  {
    if ms == [] || Leq(m.name, ms[0].name) {
    } else {
      InsertMembers(m, ms[1..]);
      assert ms == [ms[0]] + ms[1..];
    }
  }

  lemma {:induction false} InsertSorted(m: Member, ms: seq<Member>)
    requires Sorted(ms)
    ensures Sorted(Insert(m, ms))
  {
    if ms == [] {
    } else if Leq(m.name, ms[0].name) {
      forall j | 0 <= j < |ms| ensures Leq(m.name, ms[j].name) {
        if j > 0 { LeqTransitive(m.name, ms[0].name, ms[j].name); }
      }
    } else {
      InsertSorted(m, ms[1..]);
      InsertMembers(m, ms[1..]);
      var r := Insert(m, ms[1..]);
      forall j | 0 <= j < |r| ensures Leq(ms[0].name, r[j].name) {
        assert r[j] in multiset(r);
        LeqTotal(m.name, ms[0].name);
        if r[j] != m {
          assert r[j] in ms[1..];
          var i :| 0 <= i < |ms[1..]| && ms[1..][i] == r[j];
          assert ms[i + 1] == r[j];
        }
      }
    }
  }

  lemma {:induction false} SortIsSorted(ms: seq<Member>)
    ensures Sorted(Sort(ms)) && multiset(Sort(ms)) == multiset(ms)
  {
    if ms != [] {
      SortIsSorted(ms[1..]);
      InsertSorted(ms[0], Sort(ms[1..]));
      InsertMembers(ms[0], Sort(ms[1..]));
      assert ms == [ms[0]] + ms[1..];
    }
  }

  // ---------------------------------------------------------------------------------------------
  // Canonical values

  /** What a value prints as: members sorted, undefined members dropped, undefined elements and numbers that
      are not finite read as null, -0 as 0. */
  function Normal(v: Json): Json {
    match v
    case Num(x) =>
      (match x
       case Zero(_) => Num(Numerals.Zero(false))
       case Finite(_, _, _) => v
       case _ => Null)
    case Arr(items) => Arr(NormalItems(items))
    case Obj(members) => Obj(Sort(NormalMembers(members)))
    case _ => v
  }

  function NormalItems(items: seq<Json>): seq<Json> {
    if items == [] then [] else
      [if items[0].Undefined? then Null else Normal(items[0])] + NormalItems(items[1..])
  }

  function NormalMembers(ms: seq<Member>): seq<Member> {
    if ms == [] then []
    else if ms[0].value.Undefined? then NormalMembers(ms[1..])
    else [Member(ms[0].name, Normal(ms[0].value))] + NormalMembers(ms[1..])
  }

  // ---------------------------------------------------------------------------------------------
  // Text

  const QUOTE: Unit := 34
  const BACKSLASH: Unit := 92
  const COMMA: Unit := 44
  const COLON: Unit := 58

  function Hex4(u: Unit): JsString {
    [HexDigit(u / 0x10 / 0x10 / 0x10), HexDigit(u / 0x10 / 0x10 % 0x10), HexDigit(u / 0x10 % 0x10), HexDigit(u % 0x10)]
  }

  /** The escape of one unit that is not part of a surrogate pair (QuoteJSONString of ECMA-262). */
  function Escape(u: Unit): (s: JsString)
    ensures s != []
  {
    if u == 8 then [BACKSLASH, 98]
    else if u == 9 then [BACKSLASH, 116]
    else if u == 10 then [BACKSLASH, 110]
    else if u == 12 then [BACKSLASH, 102]
    else if u == 13 then [BACKSLASH, 114]
    else if u == QUOTE || u == BACKSLASH then [BACKSLASH, u]
    else if u < 32 || High(u) || Low(u) then [BACKSLASH, 117] + Hex4(u)
    else [u]
  }

  predicate PairFirst(s: JsString) { |s| > 1 && High(s[0]) && Low(s[1]) }

  function Body(s: JsString): JsString {
    if s == [] then []
    else if PairFirst(s) then s[..2] + Body(s[2..])
    else Escape(s[0]) + Body(s[1..])
  }

  function Quote(s: JsString): JsString { [QUOTE] + Body(s) + [QUOTE] }

  /** The text of a canonical value, members as they stand. */
  function Emit(v: Json): JsString {
    match v
    case Undefined => []
    case Null => [110, 117, 108, 108]
    case Bool(b) => if b then [116, 114, 117, 101] else [102, 97, 108, 115, 101]
    case Num(x) => Numerals.Print(x)
    case Str(s) => Quote(s)
    case Arr(items) => [91] + EmitItems(items) + [93]
    case Obj(members) => [123] + EmitMembers(members) + [125]
  }

  function EmitItems(items: seq<Json>): JsString {
    if items == [] then []
    else Emit(items[0]) + (if |items| == 1 then [] else [COMMA] + EmitItems(items[1..]))
  }

  function EmitMembers(ms: seq<Member>): JsString {
    if ms == [] then []
    else Quote(ms[0].name) + [COLON] + Emit(ms[0].value)
         + (if |ms| == 1 then [] else [COMMA] + EmitMembers(ms[1..]))
  }

  /** jcsStringify; None is the undefined that JSON.stringify returns for an undefined value. */
  function Stringify(v: Json): Option<JsString> {
    if v.Undefined? then None else Some(Emit(Normal(v)))
  }

  // ---------------------------------------------------------------------------------------------
  // The loops

  lemma {:induction false} NormalOfInsert(m: Member, ms: seq<Member>)
    requires Sorted(ms)
    ensures NormalMembers(Insert(m, ms)) ==
      if m.value.Undefined? then NormalMembers(ms) else Insert(Member(m.name, Normal(m.value)), NormalMembers(ms))
  {
    if ms == [] || Leq(m.name, ms[0].name) {
      assert ([m] + ms)[1..] == ms;
      forall i | 0 <= i < |ms| ensures Leq(m.name, ms[i].name) {
        if i > 0 { LeqTransitive(m.name, ms[0].name, ms[i].name); }
      }
      if !m.value.Undefined? { NormalFront(m.name, Member(m.name, Normal(m.value)), ms); }
    } else {
      NormalOfInsert(m, ms[1..]);
      var r := [ms[0]] + Insert(m, ms[1..]);
      assert r[1..] == Insert(m, ms[1..]);
      if !ms[0].value.Undefined? {
        var h := Member(ms[0].name, Normal(ms[0].value));
        assert ([h] + NormalMembers(ms[1..]))[1..] == NormalMembers(ms[1..]);
      }
    }
  }

  /** Inserting before every remaining name puts the member in front. */
  lemma {:induction false} NormalFront(name: JsString, m: Member, ms: seq<Member>)
    requires m.name == name && forall i :: 0 <= i < |ms| ==> Leq(name, ms[i].name)
    ensures Insert(m, NormalMembers(ms)) == [m] + NormalMembers(ms)
  {
    if ms != [] && ms[0].value.Undefined? { NormalFront(name, m, ms[1..]); }
  }

  /** Sorting the names first, as the code does, or last gives the same members. */
  lemma {:induction false} NormalOfSort(ms: seq<Member>)
    ensures NormalMembers(Sort(ms)) == Sort(NormalMembers(ms))
  {
    if ms != [] {
      NormalOfSort(ms[1..]);
      SortIsSorted(ms[1..]);
      NormalOfInsert(ms[0], Sort(ms[1..]));
      if !ms[0].value.Undefined? {
        var h := Member(ms[0].name, Normal(ms[0].value));
        assert ([h] + NormalMembers(ms[1..]))[1..] == NormalMembers(ms[1..]);
      }
    }
  }

  /** The items as the array loop has appended them: a comma before all but the first. */
  function Joined(items: seq<Json>): JsString {
    if items == [] then []
    else Joined(items[..|items| - 1]) + (if |items| == 1 then [] else [COMMA]) + Emit(items[|items| - 1])
  }

  lemma {:induction false} JoinedIsEmitItems(items: seq<Json>)
    ensures Joined(items) == EmitItems(items)
    decreases |items|
  {
    hide Emit;
    if |items| > 1 {
      var init, tail := items[..|items| - 1], items[1..];
      JoinedIsEmitItems(init);
      JoinedIsEmitItems(tail);
      assert init[1..] == tail[..|tail| - 1];
      if |tail| > 1 { JoinedIsEmitItems(init[1..]); }
      BothItemSteps(items);
    } else if |items| == 1 {
      JoinedStep(items);
      EmitItemsStep(items);
      NothingJoined();
      assert [] + [] + Emit(items[0]) == Emit(items[0]) + [];
    }
  }

  /** Both texts of a list of several items, from the texts of its middle. */
  lemma BothItemSteps(items: seq<Json>)
    requires |items| > 1
    requires var init, tail := items[..|items| - 1], items[1..];
      Joined(init) == EmitItems(init) && Joined(tail) == EmitItems(tail)
      && (|tail| > 1 ==> Joined(init[1..]) == EmitItems(init[1..]))
    ensures Joined(items) == EmitItems(items)
  {
    hide Joined, EmitItems, Emit;
    var init, tail, first, last := items[..|items| - 1], items[1..], Emit(items[0]), Emit(items[|items| - 1]);
    assert init[1..] == tail[..|tail| - 1];
    JoinedStep(items);
    EmitItemsStep(items);
    JoinedStep(tail);
    EmitItemsStep(init);
    if |tail| > 1 {
      var mid := EmitItems(init[1..]);
      assert (first + ([COMMA] + mid)) + [COMMA] + last == first + ([COMMA] + (mid + [COMMA] + last));
    } else {
      NothingJoined();
      assert first + [COMMA] + last == first + ([COMMA] + last);
    }
  }

  lemma NothingJoined()
    ensures Joined([]) == []
  {
  }

  lemma JoinedStep(items: seq<Json>)
    requires items != []
    ensures Joined(items) ==
      Joined(items[..|items| - 1]) + (if |items| == 1 then [] else [COMMA]) + Emit(items[|items| - 1])
  {
  }

  lemma EmitItemsStep(items: seq<Json>)
    requires items != []
    ensures EmitItems(items) == Emit(items[0]) + (if |items| == 1 then [] else [COMMA] + EmitItems(items[1..]))
  {
  }

  function MemberText(m: Member): JsString { Quote(m.name) + [COLON] + Emit(m.value) }

  function JoinedMembers(ms: seq<Member>): JsString {
    if ms == [] then []
    else JoinedMembers(ms[..|ms| - 1]) + (if |ms| == 1 then [] else [COMMA]) + MemberText(ms[|ms| - 1])
  }

  lemma {:induction false} JoinedIsEmitMembers(ms: seq<Member>)
    ensures JoinedMembers(ms) == EmitMembers(ms)
    decreases |ms|
  {
    if |ms| > 1 {
      var init, tail := ms[..|ms| - 1], ms[1..];
      JoinedIsEmitMembers(init);
      JoinedIsEmitMembers(tail);
      assert init[1..] == tail[..|tail| - 1];
      if |tail| > 1 { JoinedIsEmitMembers(init[1..]); }
      BothSteps(ms);
    }
  }

  /** Both texts of a list of several members, from the texts of its middle. */
  lemma BothSteps(ms: seq<Member>)
    requires |ms| > 1
    requires var init, tail := ms[..|ms| - 1], ms[1..];
      JoinedMembers(init) == EmitMembers(init) && JoinedMembers(tail) == EmitMembers(tail)
      && (|tail| > 1 ==> JoinedMembers(init[1..]) == EmitMembers(init[1..]))
    ensures JoinedMembers(ms) == EmitMembers(ms)
  {
    hide JoinedMembers, EmitMembers, MemberText;
    var init, tail, first, last := ms[..|ms| - 1], ms[1..], MemberText(ms[0]), MemberText(ms[|ms| - 1]);
    assert init[1..] == tail[..|tail| - 1];
    JoinedMembersStep(ms);
    EmitMembersStep(ms);
    JoinedMembersStep(tail);
    EmitMembersStep(init);
    if |tail| > 1 {
      var mid := EmitMembers(init[1..]);
      assert (first + ([COMMA] + mid)) + [COMMA] + last == first + ([COMMA] + (mid + [COMMA] + last));
    } else {
      NoMembers();
      assert first + [COMMA] + last == first + ([COMMA] + last);
    }
  }

  lemma NoMembers()
    ensures JoinedMembers([]) == []
  {
  }

  lemma JoinedMembersStep(ms: seq<Member>)
    requires ms != []
    ensures JoinedMembers(ms) ==
      JoinedMembers(ms[..|ms| - 1]) + (if |ms| == 1 then [] else [COMMA]) + MemberText(ms[|ms| - 1])
  {
  }

  lemma EmitMembersStep(ms: seq<Member>)
    requires ms != []
    ensures EmitMembers(ms) == MemberText(ms[0]) + (if |ms| == 1 then [] else [COMMA] + EmitMembers(ms[1..]))
  {
  }

  lemma {:induction false} NormalItemsSnoc(items: seq<Json>, v: Json)
    ensures NormalItems(items + [v]) == NormalItems(items) + [if v.Undefined? then Null else Normal(v)]
  {
    if items == [] {
      assert [] + [v] == [v];
    } else {
      assert (items + [v])[1..] == items[1..] + [v];
      NormalItemsSnoc(items[1..], v);
    }
  }

  lemma {:induction false} NormalMembersSnoc(ms: seq<Member>, m: Member)
    ensures NormalMembers(ms + [m]) ==
      NormalMembers(ms) + (if m.value.Undefined? then [] else [Member(m.name, Normal(m.value))])
  {
    if ms == [] {
      assert [] + [m] == [m];
    } else {
      assert (ms + [m])[1..] == ms[1..] + [m];
      NormalMembersSnoc(ms[1..], m);
    }
  }

  lemma JoinedSnoc(items: seq<Json>, v: Json)
    ensures Joined(items + [v]) == Joined(items) + (if items == [] then [] else [COMMA]) + Emit(v)
  {
    assert (items + [v])[..|items|] == items;
  }

  lemma JoinedMembersSnoc(ms: seq<Member>, m: Member)
    ensures JoinedMembers(ms + [m]) == JoinedMembers(ms) + (if ms == [] then [] else [COMMA]) + MemberText(m)
  {
    assert (ms + [m])[..|ms|] == ms;
  }

  method JcsStringify(v: Json) returns (r: Option<JsString>)
    ensures r == Stringify(v)
    decreases v, 1
  {
    if v.Arr? {
      r := ArrayText(v);
    } else if v.Obj? {
      r := ObjectText(v);
    } else {
      r := Stringify(v);
    }
  }

  method ArrayText(v: Json) returns (r: Option<JsString>)
    requires v.Arr?
    ensures r == Stringify(v)
    decreases v, 0
  {
    hide Emit, Normal, NormalItems, Joined;
    var s: JsString := [91];
    ghost var done: seq<Json> := [];
    NormalEmpty();
    for i := 0 to |v.items|
      invariant done == NormalItems(v.items[..i]) && |done| == i
      invariant s == [91] + Joined(done)
    {
      if i > 0 { s := s + [COMMA]; }
      var e := v.items[i];
      ghost var n := if e.Undefined? then Null else Normal(e);
      NormalItemsSnoc(v.items[..i], e);
      assert v.items[..i + 1] == v.items[..i] + [e];
      JoinedSnoc(done, n);
      if e.Undefined? {
        EmitNull();
        s := s + [110, 117, 108, 108];
      } else {
        var t := JcsStringify(e);
        s := s + t.value;
      }
      done := done + [n];
    }
    assert v.items[..|v.items|] == v.items;
    JoinedIsEmitItems(done);
    EmitArr(v);
    r := Some(s + [93]);
  }

  lemma SortedInside(v: Json, i: nat)
    requires v.Obj? && i < |Sort(v.members)|
    ensures Sort(v.members)[i].value < v
  {
    hide Sort;
    SortIsSorted(v.members);
    assert Sort(v.members)[i] in multiset(v.members);
  }

  method ObjectText(v: Json) returns (r: Option<JsString>)
    requires v.Obj?
    ensures r == Stringify(v)
    decreases v, 0
  {
    hide Emit, Normal, Sort, NormalMembers, JoinedMembers;
    var keys := Sort(v.members);
    var s: JsString, first := [123], true;
    ghost var done: seq<Member> := [];
    NormalEmpty();
    SortIsSorted(v.members);
    for i := 0 to |keys|
      invariant done == NormalMembers(keys[..i]) && first == (done == [])
      invariant s == [123] + JoinedMembers(done)
    {
      var k, e := keys[i].name, keys[i].value;
      NormalMembersSnoc(keys[..i], keys[i]);
      assert keys[..i + 1] == keys[..i] + [keys[i]];
      if !e.Undefined? {
        ghost var n := Member(k, Normal(e));
        JoinedMembersSnoc(done, n);
        if !first { s := s + [COMMA]; }
        first := false;
        SortedInside(v, i);
        var t := JcsStringify(e);
        s := s + (Quote(k) + [COLON] + t.value);
        done := done + [n];
      }
    }
    assert keys[..|keys|] == keys;
    NormalOfSort(v.members);
    JoinedIsEmitMembers(done);
    EmitObj(v);
    r := Some(s + [125]);
  }

  lemma NormalEmpty()
    ensures NormalItems([]) == [] && NormalMembers([]) == [] && Joined([]) == [] && JoinedMembers([]) == []
  {
  }

  lemma EmitNull()
    ensures Emit(Null) == [110, 117, 108, 108]
  {
  }

  lemma EmitArr(v: Json)
    requires v.Arr?
    ensures Emit(Normal(v)) == [91] + EmitItems(NormalItems(v.items)) + [93]
  {
  }

  lemma EmitObj(v: Json)
    requires v.Obj?
    ensures Emit(Normal(v)) == [123] + EmitMembers(Sort(NormalMembers(v.members))) + [125]
  {
  }
}
