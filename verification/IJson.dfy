/** The I-JSON guard in front of the canonicalizer: a walk with a shared node counter, and exactly which values
    it lets through. */
module IJson {
  import opened Bytes
  import opened Json
  import Numerals
  import Magnitudes

  const MAX_DEPTH: nat := 512
  const MAX_ELEMENTS: nat := 1000000
  const MAX_SAFE: nat := 9007199254740991

  datatype Refusal = TooDeep | TooMany | NotFinite | UnsafeInteger

  // ---------------------------------------------------------------------------------------------
  // Which values are I-JSON

  predicate IsInteger(x: Number) {
    x.Zero? || (x.Finite? && x.n >= |x.digits|)
  }

  /** The magnitude of an integral number. */
  function Magnitude(x: Number): nat
    requires IsInteger(x)
  {
    if x.Zero? then 0 else Numerals.DigitsValue(x.digits + Numerals.Zeros(x.n - |x.digits|))
  }

  function CheckNumber(x: Number): Option<Refusal> {
    if x.NaN? || x.Infinite? then Some(NotFinite)
    else if IsInteger(x) && Magnitude(x) > MAX_SAFE then Some(UnsafeInteger)
    else None
  }

  /** Integral means that the value is whole, and the magnitude is its absolute value. */
  lemma IntegerExactly(x: Number)
    requires x.Finite?
    ensures IsInteger(x) <==> Magnitudes.IsWhole(Magnitudes.ValueOf(x))
    ensures IsInteger(x) ==> Magnitude(x) as real == Magnitudes.Abs(Magnitudes.ValueOf(x))
  {
    hide Numerals.DigitsValue, Numerals.TenTo, Numerals.Denotes;
    var e := x.n - |x.digits|;
    Magnitudes.WholeExactly(x.neg, x.digits, e);
    Magnitudes.AbsDenotes(x.neg, x.digits, e);
    if e >= 0 {
      Numerals.PadValue(x.digits, e, 0);
      Magnitudes.TenToZero();
    }
  }

  /** A finite number is refused exactly when its value is a whole number beyond 2^53 - 1 in magnitude. */
  lemma RefusedExactly(x: Number)
    requires x.Finite?
    ensures CheckNumber(x).Some? <==>
      var v := Magnitudes.ValueOf(x);
      v.Floor as real == v && (v > 9007199254740991.0 || v < -9007199254740991.0)
  {
    hide Numerals.DigitsValue, Numerals.TenTo, Magnitude, IsInteger, Magnitudes.ValueOf;
    IntegerExactly(x);
  }

  /** Every number inside is finite, and safe if integral. */
  predicate NumbersOk(v: Json) {
    match v
    case Num(x) => CheckNumber(x) == None
    case Arr(items) => forall i :: 0 <= i < |items| ==> NumbersOk(items[i])
    case Obj(ms) => forall i :: 0 <= i < |ms| ==> NumbersOk(ms[i].value)
    case _ => true
  }

  /** The numbers that occur in a value. */
  predicate Occurs(v: Json, x: Number) {
    match v
    case Num(y) => x == y
    case Arr(items) => exists i :: 0 <= i < |items| && Occurs(items[i], x)
    case Obj(ms) => exists i :: 0 <= i < |ms| && Occurs(ms[i].value, x)
    case _ => false
  }

  /** Zero, or finite and not a whole number beyond 2^53 - 1 in magnitude. */
  predicate SafeNumber(x: Number) {
    x.Zero? || (x.Finite? && var w := Magnitudes.ValueOf(x);
                !(w.Floor as real == w && (w > 9007199254740991.0 || w < -9007199254740991.0)))
  }

  ghost predicate AllSafe(v: Json) { forall x: Number :: Occurs(v, x) ==> SafeNumber(x) }

  /** The guard looks at every number that occurs, and lets exactly the safe ones through. */
  lemma {:induction false} NumbersExactly(v: Json)
    ensures NumbersOk(v) <==> AllSafe(v)
    decreases v
  {
    hide CheckNumber, SafeNumber;
    forall x: Number ensures SafeNumber(x) <==> CheckNumber(x) == None { SafeExactly(x); }
    match v {
      case Arr(items) =>
        forall i | 0 <= i < |items| ensures NumbersOk(items[i]) <==> AllSafe(items[i]) { NumbersExactly(items[i]); }
        assert AllSafe(v) <==> forall i :: 0 <= i < |items| ==> AllSafe(items[i]);
      case Obj(ms) =>
        forall i | 0 <= i < |ms| ensures NumbersOk(ms[i].value) <==> AllSafe(ms[i].value) {
          NumbersExactly(ms[i].value);
        }
        assert AllSafe(v) <==> forall i :: 0 <= i < |ms| ==> AllSafe(ms[i].value);
      case Num(y) => assert Occurs(v, y);
      case _ =>
    }
  }

  lemma SafeExactly(x: Number)
    ensures SafeNumber(x) <==> CheckNumber(x) == None
  {
    hide Magnitudes.ValueOf;
    if x.Finite? { RefusedExactly(x); }
  }

  function Depth(v: Json): (d: nat)
    ensures d > 0
  {
    match v
    case Arr(items) => 1 + DepthItems(items)
    case Obj(ms) => 1 + DepthMembers(ms)
    case _ => 1
  }

  function DepthItems(items: seq<Json>): nat {
    if items == [] then 0 else Max(Depth(items[0]), DepthItems(items[1..]))
  }

  function DepthMembers(ms: seq<Member>): nat {
    if ms == [] then 0 else Max(Depth(ms[0].value), DepthMembers(ms[1..]))
  }

  function Max(a: nat, b: nat): nat { if a < b then b else a }

  function Nodes(v: Json): (n: nat)
    ensures n > 0
  {
    match v
    case Arr(items) => 1 + NodesItems(items)
    case Obj(ms) => 1 + NodesMembers(ms)
    case _ => 1
  }

  function NodesItems(items: seq<Json>): nat {
    if items == [] then 0 else Nodes(items[0]) + NodesItems(items[1..])
  }

  function NodesMembers(ms: seq<Member>): nat {
    if ms == [] then 0 else Nodes(ms[0].value) + NodesMembers(ms[1..])
  }

  // ---------------------------------------------------------------------------------------------
  // The walk

  /** The walk as a function of the counter: the new count, or the first refusal in visiting order. */
  function Walk(v: Json, depth: nat, n: nat): Result<nat, Refusal>
    decreases v, 0
  {
    if depth > MAX_DEPTH then Err(TooDeep)
    else if n + 1 > MAX_ELEMENTS then Err(TooMany)
    else
      match v
      case Num(x) => if CheckNumber(x) == None then Ok(n + 1) else Err(CheckNumber(x).value)
      case Arr(items) => WalkItems(items, depth + 1, n + 1)
      case Obj(ms) => WalkMembers(ms, depth + 1, n + 1)
      case _ => Ok(n + 1)
  }

  function WalkItems(items: seq<Json>, depth: nat, n: nat): Result<nat, Refusal>
    decreases items, 0
  {
    if items == [] then Ok(n) else
      match Walk(items[0], depth, n)
      case Err(e) => Err(e)
      case Ok(k) => WalkItems(items[1..], depth, k)
  }

  function WalkMembers(ms: seq<Member>, depth: nat, n: nat): Result<nat, Refusal>
    decreases ms, 0
  {
    if ms == [] then Ok(n) else
      match Walk(ms[0].value, depth, n)
      case Err(e) => Err(e)
      case Ok(k) => WalkMembers(ms[1..], depth, k)
  }

  class Counter {
    var n: nat

    constructor ()
      ensures n == 0
    {
      n := 0;
    }
  }

  /** None: the value passed. Some: the exception that was thrown. */
  method WalkIJson(v: Json, depth: nat, counter: Counter) returns (r: Option<Refusal>)
    modifies counter
    ensures match Walk(v, depth, old(counter.n))
            case Ok(k) => r == None && counter.n == k
            case Err(e) => r == Some(e)
    decreases v
  {
    hide NumbersOk;
    if depth > MAX_DEPTH { return Some(TooDeep); }
    counter.n := counter.n + 1;
    if counter.n > MAX_ELEMENTS { return Some(TooMany); }
    if v.Num? {
      return CheckNumber(v.num);
    } else if v.Arr? {
      ghost var start := counter.n;
      for i := 0 to |v.items|
        invariant WalkItems(v.items, depth + 1, start) == WalkItems(v.items[i..], depth + 1, counter.n)
      {
        assert v.items[i..][1..] == v.items[i + 1..] && v.items[i..][0] == v.items[i];
        var e := WalkIJson(v.items[i], depth + 1, counter);
        if e.Some? { return e; }
      }
      assert v.items[|v.items|..] == [];
    } else if v.Obj? {
      ghost var start := counter.n;
      for i := 0 to |v.members|
        invariant WalkMembers(v.members, depth + 1, start) == WalkMembers(v.members[i..], depth + 1, counter.n)
      {
        assert v.members[i..][1..] == v.members[i + 1..] && v.members[i..][0] == v.members[i];
        var e := WalkIJson(v.members[i].value, depth + 1, counter);
        if e.Some? { return e; }
      }
      assert v.members[|v.members|..] == [];
    }
    r := None;
  }

  method AssertIJson(v: Json) returns (r: Option<Refusal>)
    ensures r == None <==> Depth(v) <= 512 && Nodes(v) <= 1000000 && NumbersOk(v)
  {
    var counter := new Counter();
    r := WalkIJson(v, 1, counter);
    WalkExactly(v, 1, 0);
  }

  // ---------------------------------------------------------------------------------------------
  // What the walk accepts

  /** The walk passes exactly when depth, node count and numbers are within bounds, and counts every node. */
  lemma {:induction false} WalkExactly(v: Json, depth: nat, n: nat)
    requires depth > 0
    ensures Walk(v, depth, n).Ok? <==>
      depth - 1 + Depth(v) <= MAX_DEPTH && n + Nodes(v) <= MAX_ELEMENTS && NumbersOk(v)
    ensures Walk(v, depth, n).Ok? ==> Walk(v, depth, n).value == n + Nodes(v)
    decreases v, 0
  {
    match v {
      case Arr(items) => WalkItemsExactly(items, depth + 1, n + 1);
      case Obj(ms) => WalkMembersExactly(ms, depth + 1, n + 1);
      case _ =>
    }
  }

  lemma {:induction false} WalkItemsExactly(items: seq<Json>, depth: nat, n: nat)
    requires depth > 1
    ensures WalkItems(items, depth, n).Ok? <==>
      (items == [] || (depth - 1 + DepthItems(items) <= MAX_DEPTH && n + NodesItems(items) <= MAX_ELEMENTS))
      && forall i :: 0 <= i < |items| ==> NumbersOk(items[i])
    ensures WalkItems(items, depth, n).Ok? ==> WalkItems(items, depth, n).value == n + NodesItems(items)
    decreases items, 0
  {
    if items != [] {
      WalkExactly(items[0], depth, n);
      if Walk(items[0], depth, n).Ok? {
        WalkItemsExactly(items[1..], depth, n + Nodes(items[0]));
      }
      assert (forall i :: 0 <= i < |items| ==> NumbersOk(items[i])) <==>
        NumbersOk(items[0]) && forall i :: 0 <= i < |items[1..]| ==> NumbersOk(items[1..][i]) by {
        if NumbersOk(items[0]) && forall i :: 0 <= i < |items[1..]| ==> NumbersOk(items[1..][i]) {
          forall i | 0 <= i < |items| ensures NumbersOk(items[i]) {
            if i > 0 { assert items[i] == items[1..][i - 1]; }
          }
        }
      }
    }
  }

  lemma {:induction false} WalkMembersExactly(ms: seq<Member>, depth: nat, n: nat)
    requires depth > 1
    ensures WalkMembers(ms, depth, n).Ok? <==>
      (ms == [] || (depth - 1 + DepthMembers(ms) <= MAX_DEPTH && n + NodesMembers(ms) <= MAX_ELEMENTS))
      && forall i :: 0 <= i < |ms| ==> NumbersOk(ms[i].value)
    ensures WalkMembers(ms, depth, n).Ok? ==> WalkMembers(ms, depth, n).value == n + NodesMembers(ms)
    decreases ms, 0
  {
    if ms != [] {
      WalkExactly(ms[0].value, depth, n);
      if Walk(ms[0].value, depth, n).Ok? {
        WalkMembersExactly(ms[1..], depth, n + Nodes(ms[0].value));
      }
      assert (forall i :: 0 <= i < |ms| ==> NumbersOk(ms[i].value)) <==>
        NumbersOk(ms[0].value) && forall i :: 0 <= i < |ms[1..]| ==> NumbersOk(ms[1..][i].value) by {
        if NumbersOk(ms[0].value) && forall i :: 0 <= i < |ms[1..]| ==> NumbersOk(ms[1..][i].value) {
          forall i | 0 <= i < |ms| ensures NumbersOk(ms[i].value) {
            if i > 0 { assert ms[i] == ms[1..][i - 1]; }
          }
        }
      }
    }
  }
}
