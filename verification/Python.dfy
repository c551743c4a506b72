/** The conformance verifier's canonicalizer, and exactly when it agrees with the JavaScript one. */
module Python {
  import opened Bytes
  import opened Text
  import opened Json
  import opened Numerals
  import JsonEquality
  import JsonReader
  import Guard = IJson

  type Str = seq<Point>

  /** What json.loads returns. A float is the digit tuple and exponent of its repr, [] for zero. */
  datatype Py =
    | PyNone
    | PyBool(b: bool)
    | PyInt(i: int)
    | PyFloat(neg: bool, digits: seq<Digit>, exponent: int)
    | PyStr(s: Str)
    | PyList(items: seq<Py>)
    | PyDict(entries: seq<Entry>)

  datatype Entry = Entry(key: Str, value: Py)

  // ---------------------------------------------------------------------------------------------
  // canonicalize

  function PyEscape(c: Point): Str {
    if c == 8 then [92, 98]
    else if c == 9 then [92, 116]
    else if c == 10 then [92, 110]
    else if c == 12 then [92, 102]
    else if c == 13 then [92, 114]
    else if c == 34 || c == 92 then [92, c]
    else if c < 32 then [92, 117] + Hex4(c)
    else [c]
  }

  function PyBody(s: Str): Str {
    if s == [] then [] else PyEscape(s[0]) + PyBody(s[1..])
  }

  /** json.dumps(s, ensure_ascii=False). */
  function Dumps(s: Str): Str { [34] + PyBody(s) + [34] }

  /** Code-point order, the order of Python strings. */
  predicate PointLeq(a: Str, b: Str) {
    a == [] || (b != [] && (a[0] < b[0] || (a[0] == b[0] && PointLeq(a[1..], b[1..]))))
  }

  function PyInsert(e: Entry, es: seq<Entry>): seq<Entry> {
    if es == [] || PointLeq(e.key, es[0].key) then [e] + es else [es[0]] + PyInsert(e, es[1..])
  }

  /** sorted(value.items(), key=lambda kv: kv[0]). */
  function PySort(es: seq<Entry>): seq<Entry> {
    if es == [] then [] else PyInsert(es[0], PySort(es[1..]))
  }

  /** How many values there are inside, for termination: sorting keeps it. */
  function Size(v: Py): (n: nat)
    ensures n > 0
  {
    match v
    case PyList(items) => 1 + SizeItems(items)
    case PyDict(entries) => 1 + SizeEntries(entries)
    case _ => 1
  }

  function SizeItems(items: seq<Py>): nat {
    if items == [] then 0 else Size(items[0]) + SizeItems(items[1..])
  }

  function SizeEntries(es: seq<Entry>): nat {
    if es == [] then 0 else Size(es[0].value) + SizeEntries(es[1..])
  }

  lemma {:induction false} InsertSize(e: Entry, es: seq<Entry>)
    ensures SizeEntries(PyInsert(e, es)) == Size(e.value) + SizeEntries(es)
  {
    if es == [] || PointLeq(e.key, es[0].key) {
      assert ([e] + es)[1..] == es;
    } else {
      InsertSize(e, es[1..]);
      assert ([es[0]] + PyInsert(e, es[1..]))[1..] == PyInsert(e, es[1..]);
    }
  }

  lemma {:induction false} SortSize(es: seq<Entry>)
    ensures SizeEntries(PySort(es)) == SizeEntries(es)
  {
    if es != [] {
      SortSize(es[1..]);
      InsertSize(es[0], PySort(es[1..]));
    }
  }

  function IntText(i: int): JsString {
    Sign(i < 0) + Chars(Decimal(if i < 0 then -i else i))
  }

  function Canonicalize(v: Py): Str
    decreases Size(v), 0
  {
    match v
    case PyNone => [110, 117, 108, 108]
    case PyBool(b) => if b then [116, 114, 117, 101] else [102, 97, 108, 115, 101]
    case PyInt(i) => IntText(i)
    case PyFloat(neg, ds, exponent) => PyFormat(neg, ds, exponent)
    case PyStr(s) => Dumps(s)
    case PyList(items) => [91] + JoinItems(items) + [93]
    case PyDict(entries) => SortSize(entries); [123] + JoinEntries(PySort(entries)) + [125]
  }

  function JoinItems(items: seq<Py>): Str
    decreases SizeItems(items), 1
  {
    if items == [] then []
    else Canonicalize(items[0]) + (if |items| == 1 then [] else [44] + JoinItems(items[1..]))
  }

  function JoinEntries(es: seq<Entry>): Str
    decreases SizeEntries(es), 1
  {
    if es == [] then []
    else Dumps(es[0].key) + [58] + Canonicalize(es[0].value) + (if |es| == 1 then [] else [44] + JoinEntries(es[1..]))
  }

  // ---------------------------------------------------------------------------------------------
  // The same value in JavaScript

  function ToNumber(neg: bool, ds: seq<Digit>, exponent: int): Json {
    Num(Numerals.Number(Numeral(neg, ds, exponent)))
  }

  function ToJson(v: Py): (j: Json)
    ensures !j.Undefined?
  {
    match v
    case PyNone => Null
    case PyBool(b) => Bool(b)
    case PyInt(i) => ToNumber(i < 0, Decimal(if i < 0 then -i else i), 0)
    case PyFloat(neg, ds, exponent) => ToNumber(neg, ds, exponent)
    case PyStr(s) => Json.Str(Utf16(s))
    case PyList(items) => Arr(ToItems(items))
    case PyDict(entries) => Obj(ToMembers(entries))
  }

  function ToItems(items: seq<Py>): seq<Json> {
    if items == [] then [] else [ToJson(items[0])] + ToItems(items[1..])
  }

  function ToMembers(es: seq<Entry>): seq<Member> {
    if es == [] then [] else [Member(Utf16(es[0].key), ToJson(es[0].value))] + ToMembers(es[1..])
  }

  predicate Scalars(s: Str) { forall i :: 0 <= i < |s| ==> Scalar(s[i]) }

  predicate DistinctKeys(es: seq<Entry>) {
    forall i, j :: 0 <= i < j < |es| ==> es[i].key != es[j].key
  }

  /** I-JSON: no lone surrogates, safe integers; the digits of a nonzero float start with a nonzero digit. */
  predicate IJson(v: Py) {
    match v
    case PyInt(i) => -(Guard.MAX_SAFE as int) <= i <= Guard.MAX_SAFE
    case PyFloat(_, ds, _) => ds == [] || ds[0] != 0
    case PyStr(s) => Scalars(s)
    case PyList(items) => IJsonItems(items)
    case PyDict(entries) => DistinctKeys(entries) && IJsonEntries(entries)
    case _ => true
  }

  predicate IJsonItems(items: seq<Py>) {
    items == [] || (IJson(items[0]) && IJsonItems(items[1..]))
  }

  predicate IJsonEntries(es: seq<Entry>) {
    es == [] || (Scalars(es[0].key) && IJson(es[0].value) && IJsonEntries(es[1..]))
  }

  // ---------------------------------------------------------------------------------------------
  // The condition for agreement

  /** Whether the formatter prints these digits as JavaScript does. */
  predicate FloatAgrees(ds: seq<Digit>, exponent: int) {
    ds == [] || ds[|ds| - 1] != 0 || (exponent >= 0 && exponent + |ds| <= 21)
  }

  /** Code points that UTF-16 orders the other way round: one in U+E000 to U+FFFF, one beyond. */
  predicate Inverted(a: Point, b: Point) {
    (0xE000 <= a < 0x10000 <= b) || (0xE000 <= b < 0x10000 <= a)
  }

  /** The first difference of two names is such a pair. */
  predicate Straddle(a: Str, b: Str) {
    a != [] && b != [] && (if a[0] == b[0] then Straddle(a[1..], b[1..]) else Inverted(a[0], b[0]))
  }

  predicate NoStraddle(es: seq<Entry>) {
    forall i, j :: 0 <= i < |es| && 0 <= j < |es| ==> !Straddle(es[i].key, es[j].key)
  }

  predicate Agreeable(v: Py) {
    match v
    case PyFloat(_, ds, exponent) => FloatAgrees(ds, exponent)
    case PyList(items) => AgreeableItems(items)
    case PyDict(entries) => NoStraddle(entries) && AgreeableEntries(entries)
    case _ => true
  }

  predicate AgreeableItems(items: seq<Py>) {
    items == [] || (Agreeable(items[0]) && AgreeableItems(items[1..]))
  }

  predicate AgreeableEntries(es: seq<Entry>) {
    es == [] || (Agreeable(es[0].value) && AgreeableEntries(es[1..]))
  }

  // ---------------------------------------------------------------------------------------------
  // The two orders

  lemma LeqPrefix(p: JsString, x: JsString, y: JsString)
    requires |p| <= 2
    ensures Leq(p + x, p + y) <==> Leq(x, y)
  {
    if |p| == 0 {
      assert p + x == x && p + y == y;
    } else {
      assert (p + x)[1..] == p[1..] + x && (p + y)[1..] == p[1..] + y;
      if |p| == 1 {
        assert p[1..] + x == x && p[1..] + y == y;
      } else {
        assert (p[1..] + x)[1..] == x && (p[1..] + y)[1..] == y;
      }
    }
  }

  /** Different code points compare as their units do, but for the inverted pairs. */
  lemma UnitsCompare(a: Point, b: Point, x: JsString, y: JsString)
    requires Scalar(a) && Scalar(b) && a != b
    ensures Leq(Units(a) + x, Units(b) + y) <==> (a < b) != Inverted(a, b)
  {
    var s, t := Units(a) + x, Units(b) + y;
    assert s[0] == Units(a)[0] && t[0] == Units(b)[0];
    if a >= 0x10000 && b >= 0x10000 {
      assert s[1..][0] == Units(a)[1] && t[1..][0] == Units(b)[1];
      AstralCompare(a - 0x10000, b - 0x10000);
    }
  }

  lemma AstralCompare(a: nat, b: nat)
    requires a != b
    ensures a < b <==> a / 0x400 < b / 0x400 || (a / 0x400 == b / 0x400 && a % 0x400 < b % 0x400)
  {
  }

  /** Code-point order and UTF-16 order agree on two names exactly when those do not straddle. */
  lemma {:induction false} OrdersAgree(a: Str, b: Str)
    requires Scalars(a) && Scalars(b)
    ensures PointLeq(a, b) == Leq(Utf16(a), Utf16(b)) <==> !Straddle(a, b)
    decreases |a|
  {
    hide Leq, Units;
    if a == [] || b == [] {
      EmptyLeq(a, b);
    } else if a[0] == b[0] {
      OrdersAgree(a[1..], b[1..]);
      LeqPrefix(Units(a[0]), Utf16(a[1..]), Utf16(b[1..]));
    } else {
      UnitsCompare(a[0], b[0], Utf16(a[1..]), Utf16(b[1..]));
    }
  }

  lemma EmptyLeq(a: Str, b: Str)
    requires a == [] || b == []
    ensures Leq(Utf16(a), Utf16(b)) == (a == [])
  {
  }

  predicate Basic(s: Str) { forall i :: 0 <= i < |s| ==> s[i] < 0x10000 }

  predicate Apart(s: Str) { forall i :: 0 <= i < |s| ==> !(0xE000 <= s[i] < 0x10000) }

  /** Names inside the Basic Multilingual Plane never straddle; nor do names without U+E000 to U+FFFF. */
  lemma {:induction false} PlanesDoNotStraddle(a: Str, b: Str)
    requires (Basic(a) && Basic(b)) || (Apart(a) && Apart(b))
    ensures !Straddle(a, b)
    decreases |a|
  {
    if a != [] && b != [] && a[0] == b[0] { PlanesDoNotStraddle(a[1..], b[1..]); }
  }

  // ---------------------------------------------------------------------------------------------
  // Strings

  lemma {:induction false} Utf16Concat(a: Str, b: Str)
    ensures Utf16(a + b) == Utf16(a) + Utf16(b)
  {
    hide Utf16, Units;
    if a == [] {
      assert a + b == b;
      NoUnits();
    } else {
      Utf16Concat(a[1..], b);
      assert (a + b)[1..] == a[1..] + b;
      Utf16Step(a);
      Utf16Step(a + b);
    }
  }

  lemma NoUnits()
    ensures Utf16([]) == []
  {
  }

  lemma Utf16Step(a: Str)
    requires a != []
    ensures Utf16(a) == Units(a[0]) + Utf16(a[1..])
  {
  }

  lemma {:induction false} Utf16Units(s: JsString)
    ensures Utf16(s) == s
  {
    if s != [] {
      Utf16Units(s[1..]);
      assert s == [s[0]] + s[1..];
    }
  }

  lemma EscapeAgrees(c: Point)
    requires Scalar(c)
    ensures Utf16(PyEscape(c)) == if c < 0x10000 then Escape(c) else Units(c)
  {
    if c < 0x10000 {
      Utf16Units(PyEscape(c));
    } else {
      assert [c][1..] == [] && Utf16([]) == [];
      assert Utf16([c]) == Units(c) + [];
    }
  }

  lemma BodyStep(c: Point, t: JsString)
    requires Scalar(c)
    ensures Body(Units(c) + t) == (if c < 0x10000 then Escape(c) else Units(c)) + Body(t)
  {
    var s := Units(c) + t;
    if c < 0x10000 {
      assert s[0] == c && s[1..] == t;
    } else {
      assert s[..2] == Units(c) && s[2..] == t;
      assert High(s[0]) && Low(s[1]);
    }
  }

  lemma {:induction false} BodyAgrees(s: Str)
    requires Scalars(s)
    ensures Utf16(PyBody(s)) == Body(Utf16(s))
  {
    hide Body, Escape, PyEscape, Units;
    if s == [] {
      EmptyBody();
    } else {
      BodyAgrees(s[1..]);
      Utf16Concat(PyEscape(s[0]), PyBody(s[1..]));
      EscapeAgrees(s[0]);
      BodyStep(s[0], Utf16(s[1..]));
    }
  }

  lemma EmptyBody()
    ensures Body([]) == []
  {
  }

  lemma DumpsAgrees(s: Str)
    requires Scalars(s)
    ensures Utf16(Dumps(s)) == Quote(Utf16(s))
  {
    hide Body, PyBody;
    BodyAgrees(s);
    Utf16Concat([34] + PyBody(s), [34]);
    Utf16Concat([34], PyBody(s));
    Utf16Units([34]);
  }

  // ---------------------------------------------------------------------------------------------
  // Numbers

  lemma {:induction false} DecimalDigits(n: nat, k: nat)
    requires n < Power(k) && k > 0
    ensures |Decimal(n)| <= k && (n > 0 ==> Decimal(n)[0] != 0)
    decreases k
  {
    if n >= 10 {
      assert k > 1 && n / 10 < Power(k - 1);
      DecimalDigits(n / 10, k - 1);
    }
  }

  function Power(k: nat): nat { if k == 0 then 1 else 10 * Power(k - 1) }

  lemma SafeIsShort(n: nat)
    requires n <= Guard.MAX_SAFE
    ensures |Decimal(n)| <= 16 && (n > 0 ==> Decimal(n)[0] != 0)
  {
    assert Power(4) == 10 * (10 * Power(2)) == 10000 && Power(8) == 10 * (10 * (10 * (10 * Power(4))));
    assert Power(12) == 10 * (10 * (10 * (10 * Power(8)))) && Power(16) == 10 * (10 * (10 * (10 * Power(12))));
    DecimalDigits(n, 16);
  }

  function NumberText(neg: bool, ds: seq<Digit>, exponent: int): JsString { Emit(Normal(ToNumber(neg, ds, exponent))) }

  lemma FloatText(neg: bool, ds: seq<Digit>, exponent: int)
    requires ds == [] || ds[0] != 0
    ensures PyFormat(neg, ds, exponent) == NumberText(neg, ds, exponent) <==> FloatAgrees(ds, exponent)
  {
    if ds == [] {
    } else {
      PyAgrees(neg, ds, exponent);
      NonzeroNumber(neg, ds, exponent);
    }
  }

  lemma NonzeroNumber(neg: bool, ds: seq<Digit>, exponent: int)
    requires ds != [] && ds[0] != 0
    ensures NumberText(neg, ds, exponent) == Print(Numerals.Number(Numeral(neg, ds, exponent)))
  {
    assert LeadingZeros(ds) == 0;
  }

  lemma IntAgrees(i: int)
    requires -(Guard.MAX_SAFE as int) <= i <= Guard.MAX_SAFE
    ensures Utf16(Canonicalize(PyInt(i))) == Emit(Normal(ToJson(PyInt(i))))
  {
    hide *;
    IntTexts(i);
    Utf16Units(IntText(i));
    if i == 0 { ZeroText(); } else { NonzeroIntText(i); }
  }

  lemma IntTexts(i: int)
    ensures Canonicalize(PyInt(i)) == IntText(i)
    ensures Emit(Normal(ToJson(PyInt(i)))) == NumberText(i < 0, Decimal(if i < 0 then -i else i), 0)
  {
  }

  lemma NonzeroIntText(i: int)
    requires -(Guard.MAX_SAFE as int) <= i <= Guard.MAX_SAFE && i != 0
    ensures IntText(i) == NumberText(i < 0, Decimal(if i < 0 then -i else i), 0)
  {
    hide Decimal, NumberText, Layout, Chars, Numerals.Number, Print, Sign;
    var ds := Decimal(if i < 0 then -i else i);
    SafeIsShort(if i < 0 then -i else i);
    NonzeroNumber(i < 0, ds, 0);
    PyAgrees(i < 0, ds, 0);
    WholeLayout(ds);
  }

  lemma WholeLayout(ds: seq<Digit>)
    requires 0 < |ds| <= 21
    ensures Layout(ds, |ds|) == Chars(ds)
  {
    assert ds + Zeros(0) == ds;
  }

  lemma ZeroText()
    ensures IntText(0) == NumberText(false, Decimal(0), 0)
  {
    assert Decimal(0) == [0] && LeadingZeros([0]) == 1;
  }

  // ---------------------------------------------------------------------------------------------
  // Sorting

  predicate JsLeq(a: Str, b: Str) { Leq(Utf16(a), Utf16(b)) }

  /** The same entries in the order of the JavaScript canonicalizer. */
  function JsInsert(e: Entry, es: seq<Entry>): seq<Entry> {
    if es == [] || JsLeq(e.key, es[0].key) then [e] + es else [es[0]] + JsInsert(e, es[1..])
  }

  function JsSort(es: seq<Entry>): seq<Entry> {
    if es == [] then [] else JsInsert(es[0], JsSort(es[1..]))
  }

  predicate PySorted(es: seq<Entry>) {
    forall i, j :: 0 <= i < j < |es| ==> PointLeq(es[i].key, es[j].key)
  }

  predicate JsSorted(es: seq<Entry>) {
    forall i, j :: 0 <= i < j < |es| ==> JsLeq(es[i].key, es[j].key)
  }

  lemma {:induction false} PointLeqTotal(a: Str, b: Str)
    ensures PointLeq(a, b) || PointLeq(b, a)
    decreases |a|
  {
    if a != [] && b != [] { PointLeqTotal(a[1..], b[1..]); }
  }

  lemma {:induction false} PointLeqTransitive(a: Str, b: Str, c: Str)
    requires PointLeq(a, b) && PointLeq(b, c)
    ensures PointLeq(a, c)
    decreases |a|
  {
    if a != [] && a[0] == b[0] && b[0] == c[0] { PointLeqTransitive(a[1..], b[1..], c[1..]); }
  }

  lemma {:induction false} PyInsertEntries(e: Entry, es: seq<Entry>)
    ensures multiset(PyInsert(e, es)) == multiset{e} + multiset(es)
  {
    if es != [] && !PointLeq(e.key, es[0].key) {
      PyInsertEntries(e, es[1..]);
      assert es == [es[0]] + es[1..];
    }
  }

  lemma {:induction false} JsInsertEntries(e: Entry, es: seq<Entry>)
    ensures multiset(JsInsert(e, es)) == multiset{e} + multiset(es)
  {
    if es != [] && !JsLeq(e.key, es[0].key) {
      JsInsertEntries(e, es[1..]);
      assert es == [es[0]] + es[1..];
    }
  }

  lemma InTail(es: seq<Entry>, m: Entry) returns (i: nat)
    requires m in es
    ensures i < |es| && es[i] == m
  {
    i :| 0 <= i < |es| && es[i] == m;
  }

  lemma {:induction false} PyInsertSorted(e: Entry, es: seq<Entry>)
    requires PySorted(es)
    ensures PySorted(PyInsert(e, es))
  {
    hide PointLeq;
    if es == [] {
    } else if PointLeq(e.key, es[0].key) {
      forall j | 0 < j < |es| ensures PointLeq(e.key, es[j].key) { PointLeqTransitive(e.key, es[0].key, es[j].key); }
    } else {
      PyInsertSorted(e, es[1..]);
      PyInsertEntries(e, es[1..]);
      PointLeqTotal(e.key, es[0].key);
      var r := PyInsert(e, es[1..]);
      forall k | 0 <= k < |r| ensures PointLeq(es[0].key, r[k].key) {
        assert r[k] in multiset(r);
        if r[k] != e { var i := InTail(es[1..], r[k]); }
      }
    }
  }

  lemma {:induction false} JsInsertSorted(e: Entry, es: seq<Entry>)
    requires JsSorted(es)
    ensures JsSorted(JsInsert(e, es))
  {
    hide Leq, Utf16;
    if es == [] {
    } else if JsLeq(e.key, es[0].key) {
      forall j | 0 < j < |es| ensures JsLeq(e.key, es[j].key) {
        LeqTransitive(Utf16(e.key), Utf16(es[0].key), Utf16(es[j].key));
      }
    } else {
      JsInsertSorted(e, es[1..]);
      JsInsertEntries(e, es[1..]);
      LeqTotal(Utf16(e.key), Utf16(es[0].key));
      var r := JsInsert(e, es[1..]);
      forall k | 0 <= k < |r| ensures JsLeq(es[0].key, r[k].key) {
        assert r[k] in multiset(r);
        if r[k] != e { var i := InTail(es[1..], r[k]); }
      }
    }
  }

  lemma {:induction false} Sorts(es: seq<Entry>)
    ensures PySorted(PySort(es)) && multiset(PySort(es)) == multiset(es)
    ensures JsSorted(JsSort(es)) && multiset(JsSort(es)) == multiset(es)
    ensures |PySort(es)| == |es| == |JsSort(es)|
  {
    if es != [] {
      Sorts(es[1..]);
      PyInsertEntries(es[0], PySort(es[1..]));
      JsInsertEntries(es[0], JsSort(es[1..]));
      PyInsertSorted(es[0], PySort(es[1..]));
      JsInsertSorted(es[0], JsSort(es[1..]));
      assert es == [es[0]] + es[1..];
    }
    assert |PySort(es)| == |multiset(PySort(es))| && |JsSort(es)| == |multiset(JsSort(es))|;
  }

  lemma Permuted(es: seq<Entry>, m: Entry)
    ensures m in PySort(es) <==> m in es
    ensures m in JsSort(es) <==> m in es
  {
    hide PySort, JsSort;
    Sorts(es);
    assert m in PySort(es) <==> m in multiset(PySort(es));
    assert m in JsSort(es) <==> m in multiset(JsSort(es));
    assert m in es <==> m in multiset(es);
  }

  lemma {:induction false} InsertsAgree(e: Entry, es: seq<Entry>)
    requires forall k :: 0 <= k < |es| ==> PointLeq(e.key, es[k].key) == JsLeq(e.key, es[k].key)
    ensures PyInsert(e, es) == JsInsert(e, es)
  {
    hide PointLeq, JsLeq;
    if es != [] {
      forall k | 0 <= k < |es[1..]| ensures PointLeq(e.key, es[1..][k].key) == JsLeq(e.key, es[1..][k].key) {
        assert es[1..][k] == es[k + 1];
      }
      InsertsAgree(e, es[1..]);
    }
  }

  predicate ScalarKeys(es: seq<Entry>) { forall i :: 0 <= i < |es| ==> Scalars(es[i].key) }

  /** Names that do not straddle are sorted alike. */
  lemma {:induction false} SortsAgree(es: seq<Entry>)
    requires ScalarKeys(es) && NoStraddle(es)
    ensures PySort(es) == JsSort(es)
  {
    hide PointLeq, JsLeq, Straddle, Scalars;
    if es != [] {
      SortsAgree(es[1..]);
      var s := PySort(es[1..]);
      forall k | 0 <= k < |s| ensures PointLeq(es[0].key, s[k].key) == JsLeq(es[0].key, s[k].key) {
        Permuted(es[1..], s[k]);
        var i := InTail(es[1..], s[k]);
        assert es[i + 1] == s[k];
        OrdersAgreeHere(es[0].key, s[k].key);
      }
      InsertsAgree(es[0], s);
    }
  }

  lemma OrdersAgreeHere(a: Str, b: Str)
    requires Scalars(a) && Scalars(b)
    ensures PointLeq(a, b) == JsLeq(a, b) <==> !Straddle(a, b)
  {
    OrdersAgree(a, b);
  }

  lemma {:induction false} StraddleSymmetric(a: Str, b: Str)
    ensures Straddle(a, b) == Straddle(b, a) && !Straddle(a, a)
    decreases |a|
  {
    if a != [] {
      StraddleSymmetric(a[1..], if b == [] then [] else b[1..]);
    }
  }

  /** A list sorted both ways has no straddling names. */
  lemma SortedBothWays(es: seq<Entry>)
    requires ScalarKeys(es) && PySort(es) == JsSort(es)
    ensures NoStraddle(es)
  {
    hide PySort, JsSort, PointLeq, JsLeq, Straddle, Scalars;
    Sorts(es);
    var s := PySort(es);
    forall i, j | 0 <= i < |es| && 0 <= j < |es| ensures !Straddle(es[i].key, es[j].key) {
      Permuted(es, es[i]);
      Permuted(es, es[j]);
      var p := InTail(s, es[i]);
      var q := InTail(s, es[j]);
      OrdersAgreeHere(es[i].key, es[j].key);
      OrdersAgreeHere(es[j].key, es[i].key);
      StraddleSymmetric(es[i].key, es[j].key);
      if p == q {
        assert es[i] == es[j];
      } else if p < q {
        assert PointLeq(s[p].key, s[q].key) && JsLeq(s[p].key, s[q].key);
      } else {
        assert PointLeq(s[q].key, s[p].key) && JsLeq(s[q].key, s[p].key);
      }
    }
  }

  // ---------------------------------------------------------------------------------------------
  // The members of the JavaScript object

  function Printed(es: seq<Entry>): seq<Member> { NormalMembers(ToMembers(es)) }

  lemma PrintedStep(es: seq<Entry>)
    requires es != []
    ensures Printed(es) == [Member(Utf16(es[0].key), Normal(ToJson(es[0].value)))] + Printed(es[1..])
  {
    var m := Member(Utf16(es[0].key), ToJson(es[0].value));
    assert ([m] + ToMembers(es[1..]))[1..] == ToMembers(es[1..]);
  }

  lemma {:induction false} PrintedInsert(e: Entry, es: seq<Entry>)
    ensures Insert(Member(Utf16(e.key), Normal(ToJson(e.value))), Printed(es)) == Printed(JsInsert(e, es))
  {
    hide Printed, Leq, Utf16, Normal, ToJson;
    PrintedStep([e] + es);
    assert ([e] + es)[1..] == es;
    if es == [] {
      NothingPrinted();
    } else {
      PrintedStep(es);
      var rest := Printed(es)[1..];
      assert rest == Printed(es[1..]);
      if !JsLeq(e.key, es[0].key) {
        PrintedInsert(e, es[1..]);
        PrintedStep([es[0]] + JsInsert(e, es[1..]));
        assert ([es[0]] + JsInsert(e, es[1..]))[1..] == JsInsert(e, es[1..]);
      }
    }
  }

  lemma NothingPrinted()
    ensures Printed([]) == []
  {
  }

  lemma {:induction false} PrintedSort(es: seq<Entry>)
    ensures Sort(Printed(es)) == Printed(JsSort(es))
  {
    hide Printed, Insert, JsInsert, Utf16, Normal, ToJson;
    if es == [] {
      NothingPrinted();
    } else {
      PrintedStep(es);
      assert Printed(es)[1..] == Printed(es[1..]);
      PrintedSort(es[1..]);
      PrintedInsert(es[0], JsSort(es[1..]));
    }
  }

  // ---------------------------------------------------------------------------------------------
  // The two texts, part by part

  function PyText(v: Py): JsString { Utf16(Canonicalize(v)) }

  function JsText(v: Py): JsString { Emit(Normal(ToJson(v))) }

  function PyItems(items: seq<Py>): JsString { Utf16(JoinItems(items)) }

  function JsItems(items: seq<Py>): JsString { EmitItems(NormalItems(ToItems(items))) }

  function PyEntries(es: seq<Entry>): JsString { Utf16(JoinEntries(es)) }

  function JsEntries(es: seq<Entry>): JsString { EmitMembers(Printed(es)) }

  /** What follows an element: the rest of them, after a comma, unless it is the last. */
  function More(last: bool, rest: JsString): JsString { if last then [] else [COMMA] + rest }

  lemma Utf16Bracket(a: Unit, s: Str, b: Unit)
    ensures Utf16([a] + s + [b]) == [a] + Utf16(s) + [b]
  {
    Utf16Concat([a] + s, [b]);
    Utf16Concat([a], s);
    Utf16Units([a]);
    Utf16Units([b]);
  }

  lemma ListTexts(items: seq<Py>)
    ensures PyText(PyList(items)) == [91] + PyItems(items) + [93]
    ensures JsText(PyList(items)) == [91] + JsItems(items) + [93]
  {
    hide Utf16;
    Utf16Bracket(91, JoinItems(items), 93);
  }

  lemma DictTexts(es: seq<Entry>)
    ensures PyText(PyDict(es)) == [123] + PyEntries(PySort(es)) + [125]
    ensures JsText(PyDict(es)) == [123] + JsEntries(JsSort(es)) + [125]
  {
    hide Utf16, JoinEntries, PySort, Sort, JsSort, Printed;
    Utf16Bracket(123, JoinEntries(PySort(es)), 125);
    PrintedSort(es);
    PrintedIs(es);
  }

  lemma PrintedIs(es: seq<Entry>)
    ensures Normal(ToJson(PyDict(es))) == Obj(Sort(Printed(es)))
  {
  }

  lemma PyItemsStep(items: seq<Py>)
    requires items != []
    ensures PyItems(items) == PyText(items[0]) + More(|items| == 1, PyItems(items[1..]))
  {
    hide Utf16, Canonicalize;
    JoinItemsStep(items);
    if |items| == 1 {
      assert Canonicalize(items[0]) + [] == Canonicalize(items[0]);
    } else {
      Utf16Concat(Canonicalize(items[0]), [44] + JoinItems(items[1..]));
      Utf16Concat([44], JoinItems(items[1..]));
      Utf16Units([44]);
    }
  }

  lemma JoinItemsStep(items: seq<Py>)
    requires items != []
    ensures JoinItems(items) ==
      Canonicalize(items[0]) + (if |items| == 1 then [] else [44] + JoinItems(items[1..]))
  {
  }

  lemma JsItemsStep(items: seq<Py>)
    requires items != []
    ensures JsItems(items) == JsText(items[0]) + More(|items| == 1, JsItems(items[1..]))
  {
    hide Emit, Normal, ToJson;
    var h := Normal(ToJson(items[0]));
    ToItemsLength(items);
    ToItemsLength(items[1..]);
    assert ([ToJson(items[0])] + ToItems(items[1..]))[1..] == ToItems(items[1..]);
    assert ([h] + NormalItems(ToItems(items[1..])))[1..] == NormalItems(ToItems(items[1..]));
  }

  lemma {:induction false} ToItemsLength(items: seq<Py>)
    ensures |ToItems(items)| == |items| == |NormalItems(ToItems(items))|
  {
    if items != [] {
      ToItemsLength(items[1..]);
      assert ([ToJson(items[0])] + ToItems(items[1..]))[1..] == ToItems(items[1..]);
    }
  }

  lemma PyEntriesStep(es: seq<Entry>)
    requires es != [] && Scalars(es[0].key)
    ensures PyEntries(es) ==
      Quote(Utf16(es[0].key)) + [COLON] + PyText(es[0].value) + More(|es| == 1, PyEntries(es[1..]))
  {
    hide Utf16, Canonicalize, Dumps, Quote;
    JoinEntriesStep(es);
    var d, c, rest := Dumps(es[0].key), Canonicalize(es[0].value), JoinEntries(es[1..]);
    DumpsAgrees(es[0].key);
    Utf16Concat(d + [58], c);
    Utf16Concat(d, [58]);
    Utf16Units([58]);
    if |es| == 1 {
      assert d + [58] + c + [] == d + [58] + c;
    } else {
      Utf16Concat(d + [58] + c, [44] + rest);
      Utf16Concat([44], rest);
      Utf16Units([44]);
    }
  }

  lemma JoinEntriesStep(es: seq<Entry>)
    requires es != []
    ensures JoinEntries(es) ==
      Dumps(es[0].key) + [58] + Canonicalize(es[0].value) + (if |es| == 1 then [] else [44] + JoinEntries(es[1..]))
  {
  }

  lemma JsEntriesStep(es: seq<Entry>)
    requires es != []
    ensures JsEntries(es) ==
      Quote(Utf16(es[0].key)) + [COLON] + JsText(es[0].value) + More(|es| == 1, JsEntries(es[1..]))
  {
    hide Emit, Normal, ToJson, Printed, Quote, Utf16;
    PrintedStep(es);
    PrintedLength(es[1..]);
    assert Printed(es)[1..] == Printed(es[1..]);
  }

  lemma {:induction false} PrintedLength(es: seq<Entry>)
    ensures |Printed(es)| == |es|
  {
    hide Printed;
    if es == [] {
      NothingPrinted();
    } else {
      PrintedStep(es);
      PrintedLength(es[1..]);
    }
  }

  // ---------------------------------------------------------------------------------------------
  // Agreement

  lemma LeafAgrees(v: Py)
    requires IJson(v) && !v.PyFloat? && !v.PyList? && !v.PyDict?
    ensures PyText(v) == JsText(v)
  {
    match v {
      case PyInt(i) => IntAgrees(i);
      case PyStr(s) => DumpsAgrees(s);
      case PyNone => Utf16Units([110, 117, 108, 108]);
      case PyBool(b) => Utf16Units(if b then [116, 114, 117, 101] else [102, 97, 108, 115, 101]);
    }
  }

  lemma FloatTexts(v: Py)
    requires v.PyFloat?
    ensures PyText(v) == PyFormat(v.neg, v.digits, v.exponent)
    ensures JsText(v) == NumberText(v.neg, v.digits, v.exponent)
  {
    Utf16Units(PyFormat(v.neg, v.digits, v.exponent));
  }

  lemma {:induction false} TextsAgree(v: Py)
    requires IJson(v) && Agreeable(v)
    ensures PyText(v) == JsText(v)
    decreases Size(v), 0
  {
    hide PyText, JsText, NoStraddle, DistinctKeys, FloatAgrees, PyItems, JsItems, PyEntries, JsEntries;
    match v {
      case PyList(items) =>
        ListTexts(items);
        ItemsAgree(items);
      case PyDict(es) =>
        DictTexts(es);
        KeysAreScalar(es);
        SortsAgree(es);
        SortSize(es);
        SortedEntries(es);
        EntriesAgree(PySort(es));
      case PyFloat(neg, ds, exponent) =>
        FloatTexts(v);
        FloatText(neg, ds, exponent);
      case _ => LeafAgrees(v);
    }
  }

  lemma {:induction false} ItemsAgree(items: seq<Py>)
    requires IJsonItems(items) && AgreeableItems(items)
    ensures PyItems(items) == JsItems(items)
    decreases SizeItems(items), 1
  {
    hide PyText, JsText, IJson, Agreeable;
    if items != [] {
      TextsAgree(items[0]);
      ItemsAgree(items[1..]);
      PyItemsStep(items);
      JsItemsStep(items);
    }
  }

  lemma {:induction false} EntriesAgree(es: seq<Entry>)
    requires IJsonEntries(es) && AgreeableEntries(es)
    ensures PyEntries(es) == JsEntries(es)
    decreases SizeEntries(es), 1
  {
    hide PyText, JsText, IJson, Agreeable, Scalars, Printed;
    if es == [] {
      NothingPrinted();
    } else {
      TextsAgree(es[0].value);
      EntriesAgree(es[1..]);
      PyEntriesStep(es);
      JsEntriesStep(es);
    }
  }

  lemma {:induction false} EntriesAll(es: seq<Entry>)
    ensures IJsonEntries(es) <==> forall e :: e in es ==> Scalars(e.key) && IJson(e.value)
    ensures AgreeableEntries(es) <==> forall e :: e in es ==> Agreeable(e.value)
  {
    hide Scalars, IJson, Agreeable;
    if es != [] {
      EntriesAll(es[1..]);
      assert forall e :: e in es <==> e == es[0] || e in es[1..];
    }
  }

  lemma KeysAreScalar(es: seq<Entry>)
    requires IJsonEntries(es)
    ensures ScalarKeys(es)
  {
    hide Scalars, IJson, IJsonEntries;
    EntriesAll(es);
  }

  /** Sorting keeps what holds of every entry. */
  lemma SortedEntries(es: seq<Entry>)
    ensures IJsonEntries(PySort(es)) == IJsonEntries(es) == IJsonEntries(JsSort(es))
    ensures AgreeableEntries(PySort(es)) == AgreeableEntries(es)
  {
    hide Scalars, IJson, Agreeable, IJsonEntries, AgreeableEntries, PySort, JsSort;
    EntriesAll(es);
    EntriesAll(PySort(es));
    EntriesAll(JsSort(es));
    forall e ensures (e in PySort(es) <==> e in es) && (e in JsSort(es) <==> e in es) { Permuted(es, e); }
  }

  // ---------------------------------------------------------------------------------------------
  // Only then

  /** What may follow a value in a text. */
  predicate Stops(r: JsString) { r == [] || r[0] == 44 || r[0] == 93 || r[0] == 125 }

  /** The code units of numbers. */
  predicate Numeric(s: JsString) {
    forall i :: 0 <= i < |s| ==> IsDigit(s[i]) || s[i] == DOT || s[i] == MINUS || s[i] == PLUS || s[i] == EXP
  }

  function NumericRun(s: JsString): nat {
    if s == [] || !Numeric(s[..1]) then 0 else 1 + NumericRun(s[1..])
  }

  lemma {:induction false} RunOf(x: JsString, r: JsString)
    requires Numeric(x) && Stops(r)
    ensures NumericRun(x + r) == |x|
  {
    if x == [] {
      assert x + r == r && (r != [] ==> r[..1][0] == r[0]);
    } else {
      RunOf(x[1..], r);
      assert (x + r)[1..] == x[1..] + r && (x + r)[..1] == [x[0]];
    }
  }

  /** A number ends where its units end. */
  lemma NumericSplit(x: JsString, y: JsString, r: JsString, r': JsString)
    requires Numeric(x) && Numeric(y) && Stops(r) && Stops(r') && x + r == y + r'
    ensures x == y && r == r'
  {
    RunOf(x, r);
    RunOf(y, r');
    SplitConcat(x, r, y, r');
  }

  lemma LayoutNumeric(neg: bool, ds: seq<Digit>, n: int)
    requires ds != []
    ensures Numeric(Sign(neg) + Layout(ds, n))
  {
    hide Layout, LayoutParts, Decimal;
    LayoutIsParts(ds, n);
  }

  lemma FloatNumeric(neg: bool, ds: seq<Digit>, exponent: int)
    requires ds == [] || ds[0] != 0
    ensures Numeric(PyFormat(neg, ds, exponent)) && Numeric(NumberText(neg, ds, exponent))
  {
    hide Layout, Numeric, Chars;
    if ds == [] {
      ZeroNumeric();
    } else {
      LayoutNumeric(neg, ds, exponent + |ds|);
      NonzeroNumber(neg, ds, exponent);
      NonzeroFinite(neg, ds, exponent);
      var x := Numerals.Number(Numeral(neg, ds, exponent));
      LayoutNumeric(x.neg, x.digits, x.n);
    }
  }

  lemma ZeroNumeric()
    ensures Numeric([ZERO])
  {
  }

  lemma NonzeroFinite(neg: bool, ds: seq<Digit>, exponent: int)
    requires ds != [] && ds[0] != 0
    ensures Numerals.Number(Numeral(neg, ds, exponent)).Finite?
  {
    assert LeadingZeros(ds) == 0;
  }

  /** Quoted strings end in one way. */
  lemma QuoteSplit(a: JsString, b: JsString, x: JsString, y: JsString)
    requires Quote(a) + x == Quote(b) + y
    ensures a == b && x == y
  {
    hide Quote, JsonReader.ParseValue;
    JsonReader.ParseString(a, x);
    JsonReader.ParseString(b, y);
  }

  lemma {:induction false} PointsOfUtf16(s: Str)
    requires Scalars(s)
    ensures Points(Utf16(s)) == s
  {
    if s != [] {
      PointsOfUtf16(s[1..]);
      var u := Utf16(s);
      assert u == Units(s[0]) + Utf16(s[1..]);
      FirstOfUnits(s[0], Utf16(s[1..]));
      assert s == [s[0]] + s[1..];
    }
  }

  lemma FirstOfUnits(c: Point, t: JsString)
    requires Scalar(c)
    ensures First(Units(c) + t) == (c, |Units(c)|) && (Units(c) + t)[|Units(c)|..] == t
  {
  }

  lemma Utf16Injective(a: Str, b: Str)
    requires Scalars(a) && Scalars(b) && Utf16(a) == Utf16(b)
    ensures a == b
  {
    PointsOfUtf16(a);
    PointsOfUtf16(b);
  }

  /** Equal texts, whatever may follow them, end together and come from an agreeable value. */
  lemma {:induction false} TextsSplit(v: Py, r: JsString, r': JsString)
    requires IJson(v) && Stops(r) && Stops(r') && PyText(v) + r == JsText(v) + r'
    ensures r == r' && Agreeable(v)
    decreases Size(v), 0
  {
    hide PyText, JsText, NoStraddle, FloatAgrees, PyItems, JsItems, PyEntries, JsEntries;
    match v {
      case PyList(items) =>
        ListTexts(items);
        Opened(91, PyItems(items), 93, r, JsItems(items), r');
        ItemsSplit(items, r, r');
      case PyDict(es) =>
        DictTexts(es);
        KeysAreScalar(es);
        SortSize(es);
        Sorts(es);
        SortedEntries(es);
        SortedPartners(es);
        Opened(123, PyEntries(PySort(es)), 125, r, JsEntries(JsSort(es)), r');
        EntriesSplit(PySort(es), JsSort(es), r, r');
        SortedBothWays(es);
      case PyFloat(neg, ds, exponent) =>
        FloatTexts(v);
        FloatNumeric(neg, ds, exponent);
        NumericSplit(PyText(v), JsText(v), r, r');
        FloatText(neg, ds, exponent);
      case _ =>
        LeafAgrees(v);
        SplitConcat(PyText(v), r, JsText(v), r');
    }
  }

  lemma Opened(open: Unit, a: JsString, close: Unit, r: JsString, b: JsString, r': JsString)
    requires ([open] + a + [close]) + r == ([open] + b + [close]) + r'
    ensures a + ([close] + r) == b + ([close] + r')
  {
    assert ([open] + a + [close]) + r == [open] + (a + ([close] + r));
    assert ([open] + b + [close]) + r' == [open] + (b + ([close] + r'));
    SplitConcat([open], a + ([close] + r), [open], b + ([close] + r'));
  }

  /** Entries of one dict with the same key are one entry. */
  predicate Partners(p: seq<Entry>, q: seq<Entry>) {
    forall i, j :: 0 <= i < |p| && 0 <= j < |q| && p[i].key == q[j].key ==> p[i] == q[j]
  }

  lemma SortedPartners(es: seq<Entry>)
    requires DistinctKeys(es)
    ensures Partners(PySort(es), JsSort(es))
  {
    hide PySort, JsSort;
    var p, q := PySort(es), JsSort(es);
    forall i, j | 0 <= i < |p| && 0 <= j < |q| && p[i].key == q[j].key ensures p[i] == q[j] {
      Permuted(es, p[i]);
      Permuted(es, q[j]);
      var k := InTail(es, p[i]);
      var l := InTail(es, q[j]);
      assert es[k].key == es[l].key;
    }
  }

  lemma MoreStops(last: bool, rest: JsString, close: Unit, r: JsString)
    requires close == 93 || close == 125
    ensures Stops(More(last, rest) + ([close] + r))
  {
  }

  /** Past one element: either both lists end here or both go on. */
  lemma MoreSplit(last: bool, a: JsString, b: JsString, close: Unit, r: JsString, r': JsString)
    requires More(last, a) + ([close] + r) == More(last, b) + ([close] + r')
    ensures last ==> r == r'
    ensures !last ==> a + ([close] + r) == b + ([close] + r')
  {
    if last {
      LastMore();
      assert [] + ([close] + r) == [close] + r && [] + ([close] + r') == [close] + r';
      SplitConcat([close], r, [close], r');
    } else {
      MoreComma(a, [close] + r);
      MoreComma(b, [close] + r');
      SplitConcat([COMMA], a + ([close] + r), [COMMA], b + ([close] + r'));
    }
  }

  lemma MoreComma(a: JsString, z: JsString)
    ensures More(false, a) + z == [COMMA] + (a + z)
  {
  }

  lemma Regroup(t: JsString, m: JsString, z: JsString)
    ensures (t + m) + z == t + (m + z)
  {
  }

  lemma {:induction false} ItemsSplit(items: seq<Py>, r: JsString, r': JsString)
    requires IJsonItems(items) && Stops(r) && Stops(r')
    requires PyItems(items) + ([93] + r) == JsItems(items) + ([93] + r')
    ensures r == r' && AgreeableItems(items)
    decreases SizeItems(items), 1
  {
    hide PyText, JsText, IJson, Agreeable, More, Stops, PyItems, JsItems;
    if items == [] {
      NoItemTexts();
      LastMore();
      MoreSplit(true, [], [], 93, r, r');
    } else {
      var last, v := |items| == 1, items[0];
      var a, b := PyItems(items[1..]), JsItems(items[1..]);
      PyItemsStep(items);
      JsItemsStep(items);
      Regroup(PyText(v), More(last, a), [93] + r);
      Regroup(JsText(v), More(last, b), [93] + r');
      MoreStops(last, a, 93, r);
      MoreStops(last, b, 93, r');
      TextsSplit(v, More(last, a) + ([93] + r), More(last, b) + ([93] + r'));
      MoreSplit(last, a, b, 93, r, r');
      if !last { ItemsSplit(items[1..], r, r'); }
    }
  }

  lemma NoItemTexts()
    ensures PyItems([]) == [] && JsItems([]) == [] && PyEntries([]) == [] && JsEntries([]) == []
  {
  }

  lemma LastMore()
    ensures forall a :: More(true, a) == []
  {
  }

  lemma {:induction false} EntriesSplit(p: seq<Entry>, q: seq<Entry>, r: JsString, r': JsString)
    requires IJsonEntries(p) && IJsonEntries(q) && |p| == |q| && Partners(p, q) && Stops(r) && Stops(r')
    requires PyEntries(p) + ([125] + r) == JsEntries(q) + ([125] + r')
    ensures r == r' && p == q && AgreeableEntries(p)
    decreases SizeEntries(p), 1
  {
    hide PyText, JsText, IJson, Agreeable, More, Stops, Quote, Scalars, Utf16, PyEntries, JsEntries;
    if p == [] {
      NoItemTexts();
      LastMore();
      MoreSplit(true, [], [], 125, r, r');
    } else {
      var last := |p| == 1;
      var a, b := PyEntries(p[1..]), JsEntries(q[1..]);
      PyEntriesStep(p);
      JsEntriesStep(q);
      EntryTail(Utf16(p[0].key), PyText(p[0].value), More(last, a), [125] + r);
      EntryTail(Utf16(q[0].key), JsText(q[0].value), More(last, b), [125] + r');
      var x := PyText(p[0].value) + (More(last, a) + ([125] + r));
      var y := JsText(q[0].value) + (More(last, b) + ([125] + r'));
      QuoteSplit(Utf16(p[0].key), Utf16(q[0].key), [COLON] + x, [COLON] + y);
      SplitConcat([COLON], x, [COLON], y);
      Utf16Injective(p[0].key, q[0].key);
      MoreStops(last, a, 125, r);
      MoreStops(last, b, 125, r');
      TextsSplit(p[0].value, More(last, a) + ([125] + r), More(last, b) + ([125] + r'));
      MoreSplit(last, a, b, 125, r, r');
      PartnersTail(p, q);
      if !last { EntriesSplit(p[1..], q[1..], r, r'); } else { LastEntry(p, q); }
      assert p == [p[0]] + p[1..] && q == [q[0]] + q[1..];
    }
  }

  lemma EntryTail(k: JsString, t: JsString, m: JsString, z: JsString)
    ensures (Quote(k) + [COLON] + t + m) + z == Quote(k) + ([COLON] + (t + (m + z)))
  {
    hide Quote;
  }

  lemma PartnersTail(p: seq<Entry>, q: seq<Entry>)
    requires p != [] && q != [] && Partners(p, q)
    ensures Partners(p[1..], q[1..])
  {
  }

  lemma LastEntry(p: seq<Entry>, q: seq<Entry>)
    requires |p| == |q| == 1
    ensures p[1..] == q[1..] == [] && AgreeableEntries(p[1..])
  {
  }

  /** The two canonicalizers write the same text exactly for agreeable values: no float with trailing zeros behind
      the point, no dict with straddling names. */
  lemma TextsAgreeExactly(v: Py)
    requires IJson(v)
    ensures Utf16(Canonicalize(v)) == Emit(Normal(ToJson(v))) <==> Agreeable(v)
  {
    hide IJson, Agreeable, Canonicalize, Emit, Normal, ToJson, Utf16;
    if PyText(v) == JsText(v) { TextsSplit(v, [], []); }
    if Agreeable(v) { TextsAgree(v); }
  }

  lemma {:induction false} DumpsScalars(s: Str)
    requires Scalars(s)
    ensures Scalars(PyBody(s))
  {
    if s != [] { DumpsScalars(s[1..]); }
  }

  lemma {:induction false} CanonicalScalars(v: Py)
    requires IJson(v)
    ensures Scalars(Canonicalize(v))
    decreases Size(v), 0
  {
    hide Scalars, JoinItems, JoinEntries, PySort, PyFormat, IntText, Numeric, DistinctKeys;
    match v {
      case PyList(items) =>
        ItemsScalars(items);
        BracketScalars(91, JoinItems(items), 93);
      case PyDict(es) =>
        SortSize(es);
        SortedEntries(es);
        EntriesScalars(PySort(es));
        BracketScalars(123, JoinEntries(PySort(es)), 125);
      case PyStr(s) =>
        DumpsScalars(s);
        BracketScalars(34, PyBody(s), 34);
      case PyInt(i) => IntScalars(i);
      case PyFloat(neg, ds, exponent) =>
        FloatNumeric(neg, ds, exponent);
        NumericScalars(PyFormat(neg, ds, exponent));
      case _ => WordScalars(v);
    }
  }

  lemma BracketScalars(a: Unit, s: Str, b: Unit)
    requires Scalars(s) && a < 128 && b < 128
    ensures Scalars([a] + s + [b])
  {
  }

  lemma NumericScalars(s: JsString)
    requires Numeric(s)
    ensures Scalars(s)
  {
  }

  lemma WordScalars(v: Py)
    requires v.PyNone? || v.PyBool?
    ensures Scalars(Canonicalize(v))
  {
  }

  lemma IntScalars(i: int)
    ensures Scalars(IntText(i))
  {
    hide Decimal;
  }

  lemma {:induction false} ItemsScalars(items: seq<Py>)
    requires IJsonItems(items)
    ensures Scalars(JoinItems(items))
    decreases SizeItems(items), 1
  {
    hide Canonicalize, IJson;
    if items != [] {
      CanonicalScalars(items[0]);
      ItemsScalars(items[1..]);
    }
  }

  lemma {:induction false} EntriesScalars(es: seq<Entry>)
    requires IJsonEntries(es)
    ensures Scalars(JoinEntries(es))
    decreases SizeEntries(es), 1
  {
    hide Canonicalize, IJson, PyBody;
    if es != [] {
      CanonicalScalars(es[0].value);
      DumpsScalars(es[0].key);
      EntriesScalars(es[1..]);
    }
  }

  /** The bytes that are hashed, str.encode on one side and TextEncoder on the other, agree exactly then too. */
  lemma BytesAgreeExactly(v: Py)
    requires IJson(v)
    ensures Utf8(Canonicalize(v)) == TextEncode(Stringify(ToJson(v)).value) <==> Agreeable(v)
  {
    hide IJson, Agreeable, Canonicalize, Emit, Normal, ToJson, Utf16, Utf8, Replaced, Points, WellFormed;
    TextsAgreeExactly(v);
    CanonicalScalars(v);
    var cs, t := Canonicalize(v), Emit(Normal(ToJson(v)));
    JsonEquality.StringifyWellFormed(ToJson(v));
    ReplacedIsSame(t);
    PointsOfUtf16(cs);
    Utf16OfPoints(t);
    if Utf8(cs) == Utf8(Points(t)) { Utf8Injective(cs, Points(t)); }
  }

  /** 100.0, whose repr has the digits 1000 and the exponent -1, prints "100.0" in one and "100" in the other. */
  lemma HundredDisagrees()
    ensures IJson(PyFloat(false, [1, 0, 0, 0], -1)) && !Agreeable(PyFloat(false, [1, 0, 0, 0], -1))
  {
  }

  /** A dict with the names U+FFFF and U+10000 is written in two orders. */
  lemma PrivateNamesDisagree()
    ensures var v := PyDict([Entry([0xFFFF], PyNone), Entry([0x10000], PyNone)]); IJson(v) && !Agreeable(v)
  {
    var es := [Entry([0xFFFF], PyNone), Entry([0x10000], PyNone)];
    assert Straddle(es[0].key, es[1].key);
    assert es[1..][0] == es[1];
  }
}
