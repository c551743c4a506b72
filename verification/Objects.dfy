/** JavaScript objects as the verifiers handle them: conditions on any value, reading a property, deleting and
    assigning members. */
module Objects {
  import opened Text
  import opened Bytes
  import opened Json
  import opened JsonEquality

  /** The name whose assignment sets the prototype of an object and leaves no member. */
  const PROTO := Lit("__proto__")

  /** Whether a value is true in a condition; JSON data holds no function. */
  predicate Truthy(v: Json) {
    match v
    case Undefined => false
    case Null => false
    case Bool(b) => b
    case Num(x) => !x.Zero? && !x.NaN?
    case Str(s) => s != []
    case _ => true
  }

  /** v.name, for the names that no built-in prototype has. */
  function Prop(v: Json, name: JsString): Json {
    if v.Obj? then Lookup(v.members, name) else Undefined
  }

  lemma PropIsJs(v: Json, name: JsString)
    requires Js(v)
    ensures Js(Prop(v, name))
  {
    if !Prop(v, name).Undefined? { var i := LookupFinds(v.members, name); }
  }

  /** typeof v is 'object', and v is not null. */
  predicate IsObject(v: Json) { v.Obj? || v.Arr? }

  // ---------------------------------------------------------------------------------------------
  // Deleting and assigning members

  function Delete(ms: seq<Member>, name: JsString): seq<Member> {
    if ms == [] then []
    else if ms[0].name == name then Delete(ms[1..], name)
    else [ms[0]] + Delete(ms[1..], name)
  }

  /** An assignment keeps the place of a member that is there and appends one that is not. */
  function Put(ms: seq<Member>, name: JsString, value: Json): seq<Member> {
    if ms == [] then [Member(name, value)]
    else if ms[0].name == name then [Member(name, value)] + ms[1..]
    else [ms[0]] + Put(ms[1..], name, value)
  }

  lemma {:induction false} DeletePut(ms: seq<Member>, name: JsString, value: Json)
    ensures Delete(Put(ms, name, value), name) == Delete(ms, name)
  {
    if ms != [] && ms[0].name != name { DeletePut(ms[1..], name, value); }
  }

  lemma {:induction false} PutPut(ms: seq<Member>, name: JsString, v: Json, w: Json)
    ensures Put(Put(ms, name, v), name, w) == Put(ms, name, w)
  {
    if ms != [] && ms[0].name != name { PutPut(ms[1..], name, v, w); }
  }

  lemma {:induction false} LookupPut(ms: seq<Member>, name: JsString, value: Json, other: JsString)
    ensures Lookup(Put(ms, name, value), other) == if other == name then value else Lookup(ms, other)
  {
    if ms != [] && ms[0].name != name { LookupPut(ms[1..], name, value, other); }
  }

  lemma {:induction false} LookupDelete(ms: seq<Member>, name: JsString, other: JsString)
    ensures Lookup(Delete(ms, name), other) == if other == name then Undefined else Lookup(ms, other)
  {
    if ms != [] { LookupDelete(ms[1..], name, other); }
  }

  /** Assigning what is there changes nothing. */
  lemma {:induction false} PutSame(ms: seq<Member>, name: JsString)
    requires !Lookup(ms, name).Undefined?
    ensures Put(ms, name, Lookup(ms, name)) == ms
  {
    if ms[0].name != name { PutSame(ms[1..], name); }
  }

  lemma {:induction false} PutNames(ms: seq<Member>, name: JsString, value: Json, other: JsString)
    ensures (forall i :: 0 <= i < |ms| ==> ms[i].name != other) && other != name ==>
      forall i :: 0 <= i < |Put(ms, name, value)| ==> Put(ms, name, value)[i].name != other
  {
    if ms != [] && ms[0].name != name {
      PutNames(ms[1..], name, value, other);
    }
  }

  lemma {:induction false} PutDistinct(ms: seq<Member>, name: JsString, value: Json)
    requires DistinctNames(ms)
    ensures DistinctNames(Put(ms, name, value))
  {
    if ms != [] && ms[0].name != name {
      PutDistinct(ms[1..], name, value);
      assert forall i :: 0 <= i < |ms[1..]| ==> ms[1..][i].name != ms[0].name;
      PutNames(ms[1..], name, value, ms[0].name);
    }
  }

  lemma {:induction false} DeleteMember(ms: seq<Member>, name: JsString, m: Member)
    ensures m in Delete(ms, name) <==> m in ms && m.name != name
  {
    if ms != [] {
      DeleteMember(ms[1..], name, m);
      assert ms == [ms[0]] + ms[1..];
    }
  }

  lemma {:induction false} DeleteDistinct(ms: seq<Member>, name: JsString)
    requires DistinctNames(ms)
    ensures DistinctNames(Delete(ms, name))
  {
    if ms != [] {
      DeleteDistinct(ms[1..], name);
      var d := Delete(ms[1..], name);
      forall k | 0 <= k < |d| ensures d[k].name != ms[0].name {
        DeleteMember(ms[1..], name, d[k]);
        assert d[k] in ms[1..];
      }
    }
  }

  /** A member whose value is undefined prints as one that is not there. */
  lemma {:induction false} DeleteUndefined(ms: seq<Member>, name: JsString)
    requires DistinctNames(ms) && Lookup(ms, name).Undefined?
    ensures NormalMembers(Delete(ms, name)) == NormalMembers(ms)
  {
    if ms != [] {
      if ms[0].name == name {
        AbsentName(ms[1..], name);
        DeleteAbsent(ms[1..], name);
      } else {
        DeleteUndefined(ms[1..], name);
      }
    }
  }

  lemma {:induction false} AbsentName(ms: seq<Member>, name: JsString)
    requires forall i :: 0 <= i < |ms| ==> ms[i].name != name
    ensures Lookup(ms, name).Undefined?
  {
    if ms != [] { AbsentName(ms[1..], name); }
  }

  lemma {:induction false} DeleteAbsent(ms: seq<Member>, name: JsString)
    requires forall i :: 0 <= i < |ms| ==> ms[i].name != name
    ensures Delete(ms, name) == ms
  {
    if ms != [] { DeleteAbsent(ms[1..], name); }
  }

  lemma {:induction false} DeleteSwap(ms: seq<Member>, a: JsString, b: JsString)
    ensures Delete(Delete(ms, a), b) == Delete(Delete(ms, b), a)
  {
    if ms != [] { DeleteSwap(ms[1..], a, b); }
  }

  lemma {:induction false} PutMember(ms: seq<Member>, name: JsString, value: Json, m: Member)
    requires m in Put(ms, name, value)
    ensures m == Member(name, value) || m in ms
  {
    if ms != [] {
      if ms[0].name != name && m != ms[0] { PutMember(ms[1..], name, value, m); }
      assert ms == [ms[0]] + ms[1..];
    }
  }

  lemma JsMembers(ms: seq<Member>)
    ensures Js(Obj(ms)) <==> DistinctNames(ms) && forall m :: m in ms ==> Js(m.value)
  {
  }

  lemma PutJs(ms: seq<Member>, name: JsString, value: Json)
    requires Js(Obj(ms)) && Js(value)
    ensures Js(Obj(Put(ms, name, value)))
  {
    hide Put, Js;
    JsMembers(ms);
    JsMembers(Put(ms, name, value));
    PutDistinct(ms, name, value);
    forall m | m in Put(ms, name, value) ensures Js(m.value) { PutMember(ms, name, value, m); }
  }

  lemma DeleteJs(ms: seq<Member>, name: JsString)
    requires Js(Obj(ms))
    ensures Js(Obj(Delete(ms, name)))
  {
    hide Delete, Js;
    JsMembers(ms);
    JsMembers(Delete(ms, name));
    DeleteDistinct(ms, name);
    forall m | m in Delete(ms, name) ensures Js(m.value) { DeleteMember(ms, name, m); }
  }
}
