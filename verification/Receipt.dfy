/** The receipt badge: the execution hash, the proofs, the anchor bindings, and the verdict they lead to. A passed
    receipt fixes its payload and its place in the anchored tree, or two inputs of the hash collide. */
module Receipt {
  import opened Bytes
  import opened Text
  import opened Json
  import opened JsonEquality
  import opened Objects
  import opened Signing
  import IJson
  import Magnitudes
  import Merkle
  import Records
  import Sha
  import Base58

  /** What the badge is given: the hash, String() of a value that is not a string (None is an exception), the
      exact value of an integral double above 2^53 - 1, and Ed25519 (key, signature, message). */
  datatype Env = Env(h: Hash, text: Json -> Option<JsString>, big: Number -> nat, verify: (Data, Data, Data) -> bool)

  const POLICY := Lit("policy_parameters")
  const OUTPUT := Lit("output_payload")
  const EXECUTION := Lit("execution_hash")
  const BINDINGS := Lit("anchor_bindings")
  const ANCHORED := Lit("anchored_hash")
  const INCLUSION := Lit("merkle_inclusion")
  const ALGORITHM := Lit("algorithm")
  const LEAF := Lit("leaf")
  const INDEX := Lit("index")
  const SIZE := Lit("tree_size")
  const PATH := Lit("path")

  function StringOf(env: Env, v: Json): Option<JsString> {
    if v.Str? then Some(v.s) else env.text(v)
  }

  /** String(v || ''). */
  function OrEmpty(env: Env, v: Json): Option<JsString> {
    if Truthy(v) then StringOf(env, v) else Some([])
  }

  // ---------------------------------------------------------------------------------------------
  // The execution hash

  function Preimage(policy: Json, output: Json): Json {
    Obj([Member(POLICY, policy), Member(OUTPUT, output)])
  }

  function PayloadDigest(h: Hash, policy: Json, output: Json): (d: Data)
    ensures |d| == 32
  {
    h.Of(DocBytes(Preimage(policy, output)))
  }

  /** None is the exception of the I-JSON guard. */
  function ExecutionHash(h: Hash, policy: Json, output: Json): (r: Option<JsString>)
    ensures r.Some? ==> |r.value| == 64 && IsHex(r.value)
  {
    if IJson.NumbersOk(Preimage(policy, output)) then Some(Hex(PayloadDigest(h, policy, output))) else None
  }

  // ---------------------------------------------------------------------------------------------
  // Merkle inclusion

  datatype MerkleFault =
    NotObject | BadAlgorithm | LeafNotDigest | OtherLeaf | BadIndex | BadSize | PathNotArray | NoRoot | Malformed

  datatype Inclusion = RootHex(hex: JsString) | Rejected(fault: MerkleFault) | Threw

  predicate NonNegativeInteger(v: Json) {
    v.Num? && IJson.IsInteger(v.num) && (v.num.Finite? ==> !v.num.neg)
  }

  /** The value of an integral number. */
  function Whole(env: Env, x: Number): nat
    requires IJson.IsInteger(x)
  {
    if IJson.Magnitude(x) <= IJson.MAX_SAFE then IJson.Magnitude(x) else env.big(x)
  }

  /** A finite number is an acceptable index exactly when its value is whole and not negative, and then the index is
      that value. */
  lemma IndexExactly(x: Number)
    requires x.Finite?
    ensures NonNegativeInteger(Num(x)) <==>
      var v := Magnitudes.ValueOf(x);
      v.Floor as real == v && v >= 0.0
    ensures NonNegativeInteger(Num(x)) && Magnitudes.ValueOf(x) <= 9007199254740991.0 ==>
      forall env :: Whole(env, x) as real == Magnitudes.ValueOf(x)
  {
    hide IJson.IsInteger, IJson.Magnitude, Magnitudes.ValueOf;
    IJson.IntegerExactly(x);
    Magnitudes.SignOfValue(x);
  }

  function PathBytes(env: Env, items: seq<Json>): (r: Option<seq<Data>>)
    ensures r.Some? ==> |r.value| == |items|
  {
    if items == [] then Some([]) else
      match StringOf(env, items[0])
      case None => None
      case Some(s) =>
        match PathBytes(env, items[1..])
        case None => None
        case Some(rest) => Some([HexToBytes(Strip(s))] + rest)
  }

  function VerifyMerkle(env: Env, mi: Json, exec: JsString): Inclusion {
    if !IsObject(mi) then Rejected(NotObject)
    else if Prop(mi, ALGORITHM) != Str(Lit("rfc6962")) then Rejected(BadAlgorithm)
    else
      match OrEmpty(env, Prop(mi, LEAF))
      case None => Threw
      case Some(stated) =>
        var leafHex := Lower(Strip(stated));
        if !(|leafHex| == 64 && IsHex(leafHex)) then Rejected(LeafNotDigest)
        else if leafHex != Lower(exec) then Rejected(OtherLeaf)
        else if !NonNegativeInteger(Prop(mi, INDEX)) then Rejected(BadIndex)
        else if !(NonNegativeInteger(Prop(mi, SIZE)) && !Prop(mi, SIZE).num.Zero?) then Rejected(BadSize)
        else if !Prop(mi, PATH).Arr? then Rejected(PathNotArray)
        else
          match PathBytes(env, Prop(mi, PATH).items)
          case None => Rejected(Malformed)
          case Some(path) =>
            match Merkle.Root(env.h, Merkle.LeafHash(env.h, HexToBytes(leafHex)), Whole(env, Prop(mi, INDEX).num),
                              Whole(env, Prop(mi, SIZE).num), path)
            case None => Rejected(NoRoot)
            case Some(root) => RootHex(Hex(root))
  }

  // ---------------------------------------------------------------------------------------------
  // Proofs

  /** didKeyToPublicKey: None is an exception. */
  function DidKey(did: Json): Option<Data> {
    if !did.Str? || !(Lit("did:key:z") <= did.s) then None else
      match Base58.Decoded(did.s[9..])
      case None => None
      case Some(d) => if |d| >= 2 && d[0] == 0xED && d[1] == 0x01 then Some(d[2..]) else None
  }

  predicate ProofValid(env: Env, secured: Json, proof: Json) {
    && Truthy(proof) && WellShaped(proof)
    && DidKey(Prop(proof, METHOD)).Some?
    && Base58.Decoded(Prop(proof, VALUE).s[1..]).Some?
    && env.verify(DidKey(Prop(proof, METHOD)).value, Base58.Decoded(Prop(proof, VALUE).s[1..]).value,
                  Message(env.h, Rebuilt(proof), secured))
  }

  function Proofs(a: Json): seq<Json> {
    var sig := Prop(a, SIGNATURE);
    var raw := if Truthy(sig) then Prop(sig, PROOF) else sig;
    if raw.Null? || raw.Undefined? then [] else if raw.Arr? then raw.items else [raw]
  }

  /** Securing never throws when there is a proof to check. */
  lemma ProofsSecured(a: Json)
    requires Proofs(a) != []
    ensures SecuredRecord(a).Some?
  {
  }

  predicate ProofsValid(env: Env, a: Json) {
    Proofs(a) == [] ||
    (ProofsSecured(a); forall i :: 0 <= i < |Proofs(a)| ==> ProofValid(env, SecuredRecord(a).value, Proofs(a)[i]))
  }

  method VerifyArtifactProofs(env: Env, a: Json) returns (present: bool, allValid: bool)
    ensures present == (Proofs(a) != []) && allValid == ProofsValid(env, a)
  {
    hide Proofs, ProofValid, SecuredRecord;
    var proofs := Proofs(a);
    if |proofs| == 0 { return false, true; }
    ProofsSecured(a);
    var secured := SecuredRecordClone(a);
    var results: seq<bool> := [];
    for i := 0 to |proofs|
      invariant |results| == i
      invariant forall k :: 0 <= k < i ==> results[k] == ProofValid(env, secured.value, proofs[k])
    {
      results := results + [ProofValid(env, secured.value, proofs[i])];
    }
    present, allValid := true, forall k :: 0 <= k < |results| ==> results[k];
  }

  // ---------------------------------------------------------------------------------------------
  // Bindings

  function AnchoredHash(env: Env, binding: Json): Option<JsString> {
    match OrEmpty(env, Prop(binding, ANCHORED))
    case None => None
    case Some(s) => Some(Lower(Strip(s)))
  }

  /** None is an exception. */
  function CheckBinding(env: Env, binding: Json, exec: JsString): Option<bool> {
    if binding.Null? || binding.Undefined? || AnchoredHash(env, binding).None? then None else
      var anchored := AnchoredHash(env, binding).value;
      if Truthy(Prop(binding, INCLUSION)) then
        match VerifyMerkle(env, Prop(binding, INCLUSION), exec)
        case RootHex(hex) => Some(Lower(hex) == anchored)
        case Rejected(_) => Some(false)
        case Threw => None
      else Some(anchored != [] && anchored == Lower(exec))
  }

  function Bindings(a: Json): seq<Json> {
    if Prop(a, BINDINGS).Arr? then Prop(a, BINDINGS).items else []
  }

  // ---------------------------------------------------------------------------------------------
  // The verdict

  datatype Fault = Structure | HashMismatch | Signature | Anchor(i: nat)

  datatype Verdict = Pass | Fail(why: Fault) | Thrown

  predicate StructOk(a: Json) {
    && IsObject(Prop(a, POLICY)) && IsObject(Prop(a, OUTPUT))
    && Prop(a, EXECUTION).Str? && Prop(a, EXECUTION).s != []
  }

  function Recomputed(env: Env, a: Json): Option<JsString> {
    ExecutionHash(env.h, Prop(a, POLICY), Prop(a, OUTPUT))
  }

  function StatedHash(a: Json): JsString
    requires StructOk(a)
  {
    Lower(Strip(Prop(a, EXECUTION).s))
  }

  /** The first binding that does not hold decides. */
  function CheckBindings(env: Env, bindings: seq<Json>, i: nat, exec: JsString): Verdict
    requires i <= |bindings|
    decreases |bindings| - i
  {
    if i == |bindings| then Pass else
      match CheckBinding(env, bindings[i], exec)
      case None => Thrown
      case Some(ok) => if ok then CheckBindings(env, bindings, i + 1, exec) else Fail(Anchor(i))
  }

  function Outcome(env: Env, a: Json): Verdict {
    if !StructOk(a) then Fail(Structure)
    else if Recomputed(env, a).None? then Thrown
    else if Lower(Recomputed(env, a).value) != StatedHash(a) then Fail(HashMismatch)
    else if !ProofsValid(env, a) then Fail(Signature)
    else CheckBindings(env, Bindings(a), 0, Recomputed(env, a).value)
  }

  method VerifyReceipt(env: Env, a: Json) returns (v: Verdict)
    ensures v == Outcome(env, a)
  {
    hide StructOk, Recomputed, ProofsValid, CheckBinding, Bindings;
    if !StructOk(a) { return Fail(Structure); }
    var recomputed := Recomputed(env, a);
    if recomputed.None? { return Thrown; }
    if Lower(recomputed.value) != StatedHash(a) { return Fail(HashMismatch); }
    var present, allValid := VerifyArtifactProofs(env, a);
    NoProofs(env, a);
    if present && !allValid { return Fail(Signature); }
    var bindings := Bindings(a);
    for i := 0 to |bindings|
      invariant Outcome(env, a) == CheckBindings(env, bindings, i, recomputed.value)
    {
      var ok := CheckBinding(env, bindings[i], recomputed.value);
      if ok.None? { return Thrown; }
      if !ok.value { return Fail(Anchor(i)); }
    }
    v := Pass;
  }

  lemma NoProofs(env: Env, a: Json)
    ensures Proofs(a) == [] ==> ProofsValid(env, a)
  {
  }

  // ---------------------------------------------------------------------------------------------
  // What a pass means

  lemma {:induction false} BindingsHold(env: Env, bindings: seq<Json>, i: nat, exec: JsString)
    requires i <= |bindings|
    ensures CheckBindings(env, bindings, i, exec) == Pass <==>
      forall k :: i <= k < |bindings| ==> CheckBinding(env, bindings[k], exec) == Some(true)
    decreases |bindings| - i
  {
    hide CheckBinding;
    if i < |bindings| { BindingsHold(env, bindings, i + 1, exec); }
  }

  /** A receipt passes exactly when its structure is complete, its payload hashes to the stated value, every proof
      verifies and every binding holds. */
  lemma PassExactly(env: Env, a: Json)
    ensures Outcome(env, a) == Pass <==>
      && StructOk(a) && Recomputed(env, a) == Some(StatedHash(a)) && ProofsValid(env, a)
      && forall i :: 0 <= i < |Bindings(a)| ==> CheckBinding(env, Bindings(a)[i], StatedHash(a)) == Some(true)
  {
    hide StructOk, ProofsValid, CheckBinding, CheckBindings, Bindings, Recomputed, Lower;
    if StructOk(a) && Recomputed(env, a).Some? {
      RecomputedIsLower(env, a);
      BindingsHold(env, Bindings(a), 0, Recomputed(env, a).value);
    }
  }

  lemma RecomputedIsLower(env: Env, a: Json)
    ensures Recomputed(env, a).Some? ==> Lower(Recomputed(env, a).value) == Recomputed(env, a).value
  {
    hide ExecutionHash;
    if Recomputed(env, a).Some? { LowerOfHex(Recomputed(env, a).value); }
  }

  lemma PreimageMembers(policy: Json, output: Json)
    requires Js(policy) && Js(output)
    ensures Js(Preimage(policy, output)) && Lookup(Preimage(policy, output).members, POLICY) == policy
    ensures Lookup(Preimage(policy, output).members, OUTPUT) == output
  {
    var ms := Preimage(policy, output).members;
    assert ms[0].name == POLICY && ms[1].name == OUTPUT && |POLICY| != |OUTPUT|;
    LookupAt(ms, 0);
    LookupAt(ms, 1);
  }

  lemma SamePreimage(p: Json, o: Json, p': Json, o': Json)
    requires Js(p) && Js(o) && Js(p') && Js(o')
    requires !p.Undefined? && !o.Undefined? && Same(Preimage(p, o), Preimage(p', o'))
    ensures Same(p, p') && Same(o, o')
  {
    hide Preimage, Lookup, Js;
    PreimageMembers(p, o);
    PreimageMembers(p', o');
    PreimageAt(p, o);
    var a, b := Preimage(p, o).members, Preimage(p', o').members;
    ObjectParts(a, b);
    assert Same(a[0].value, Lookup(b, a[0].name));
    assert Same(a[1].value, Lookup(b, a[1].name));
  }

  lemma PreimageAt(p: Json, o: Json)
    ensures Preimage(p, o) == Obj([Member(POLICY, p), Member(OUTPUT, o)])
  {
  }

  /** Payloads with one digest are the same values, or the returned byte strings collide. */
  lemma PayloadBinding(h: Hash, p: Json, o: Json, p': Json, o': Json) returns (x: Data, y: Data)
    requires Js(p) && Js(o) && Js(p') && Js(o') && !p.Undefined? && !o.Undefined?
    requires PayloadDigest(h, p, o) == PayloadDigest(h, p', o')
    ensures (Same(p, p') && Same(o, o')) || Collision(h, x, y)
  {
    hide Stringify, TextEncode, Same, Js;
    var v, w := Preimage(p, o), Preimage(p', o');
    PreimageMembers(p, o);
    PreimageMembers(p', o');
    BytesDecide(v, w);
    x, y := DocBytes(v), DocBytes(w);
    if x == y { SamePreimage(p, o, p', o'); }
  }

  lemma PassedHash(env: Env, a: Json)
    requires Outcome(env, a) == Pass
    ensures StructOk(a) && StatedHash(a) == Hex(PayloadDigest(env.h, Prop(a, POLICY), Prop(a, OUTPUT)))
  {
    hide StructOk, ProofsValid, CheckBinding, Bindings, Hex, StatedHash, PayloadDigest;
    PassExactly(env, a);
  }

  /** Tamper evidence: two receipts that pass under one stated hash carry the same policy parameters and the same
      output, or the returned byte strings collide. */
  lemma TamperEvidence(env: Env, a: Json, a': Json) returns (x: Data, y: Data)
    requires Js(a) && Js(a') && Outcome(env, a) == Pass && Outcome(env, a') == Pass
    requires StructOk(a) && StructOk(a') && StatedHash(a) == StatedHash(a')
    ensures Collision(env.h, x, y) ||
      (Same(Prop(a, POLICY), Prop(a', POLICY)) && Same(Prop(a, OUTPUT), Prop(a', OUTPUT)))
  {
    hide Outcome, Same, Js, Hex, PayloadDigest, StatedHash, Prop;
    PassedHash(env, a);
    PassedHash(env, a');
    var p, o, p', o' := Prop(a, POLICY), Prop(a, OUTPUT), Prop(a', POLICY), Prop(a', OUTPUT);
    HexInjective(PayloadDigest(env.h, p, o), PayloadDigest(env.h, p', o'));
    PropIsJs(a, POLICY);
    PropIsJs(a, OUTPUT);
    PropIsJs(a', POLICY);
    PropIsJs(a', OUTPUT);
    x, y := PayloadBinding(env.h, p, o, p', o');
  }

  /** The same under SHA-256 itself: two different byte strings with one SHA-256 digest are the only way out. */
  lemma TamperEvidenceUnderSha256(core: Sha.Core, env: Env, a: Json, a': Json) returns (x: Data, y: Data)
    requires env.h == Sha.AsHash(core)
    requires Js(a) && Js(a') && Outcome(env, a) == Pass && Outcome(env, a') == Pass
    requires StructOk(a) && StructOk(a') && StatedHash(a) == StatedHash(a')
    ensures (x != y && Sha.Sha256Of(core, x) == Sha.Sha256Of(core, y)) ||
      (Same(Prop(a, POLICY), Prop(a', POLICY)) && Same(Prop(a, OUTPUT), Prop(a', OUTPUT)))
  {
    hide Outcome, Same, Js, StatedHash, StructOk, Sha.Sha256Of;
    x, y := TamperEvidence(env, a, a');
    Sha.AsHashIsSha256(core, x);
    Sha.AsHashIsSha256(core, y);
  }

  // ---------------------------------------------------------------------------------------------
  // Anchors

  /** Binding i of a is a Merkle binding that rebuilds root from the index, the size and the path it states. */
  ghost predicate Placed(env: Env, a: Json, i: nat, index: nat, size: nat, path: seq<Data>, root: Data) {
    && i < |Bindings(a)|
    && AnchoredHash(env, Bindings(a)[i]) == Some(Hex(root))
    && var mi := Prop(Bindings(a)[i], INCLUSION);
    && Prop(mi, ALGORITHM) == Str(Lit("rfc6962"))
    && NonNegativeInteger(Prop(mi, INDEX)) && Whole(env, Prop(mi, INDEX).num) == index
    && NonNegativeInteger(Prop(mi, SIZE)) && Whole(env, Prop(mi, SIZE).num) == size
    && Prop(mi, PATH).Arr? && PathBytes(env, Prop(mi, PATH).items) == Some(path)
  }

  /** The leaf: the digest of the payload. */
  function Leaf(env: Env, a: Json): (d: Data)
    ensures |d| == 32
  {
    PayloadDigest(env.h, Prop(a, POLICY), Prop(a, OUTPUT))
  }

  lemma MerkleHolds(env: Env, mi: Json, exec: JsString)
    returns (index: nat, size: nat, path: seq<Data>, root: Data)
    requires VerifyMerkle(env, mi, exec).RootHex? && |exec| == 64 && IsHex(exec)
    ensures Prop(mi, ALGORITHM) == Str(Lit("rfc6962"))
    ensures NonNegativeInteger(Prop(mi, INDEX)) && Whole(env, Prop(mi, INDEX).num) == index
    ensures NonNegativeInteger(Prop(mi, SIZE)) && Whole(env, Prop(mi, SIZE).num) == size
    ensures Prop(mi, PATH).Arr? && PathBytes(env, Prop(mi, PATH).items) == Some(path)
    ensures Merkle.Root(env.h, Merkle.LeafHash(env.h, Unhex(exec)), index, size, path) == Some(root)
    ensures VerifyMerkle(env, mi, exec) == RootHex(Hex(root))
  {
    hide PathBytes, Merkle.Root, Merkle.LeafHash, Hex, HexToBytes, Whole, Prop, OrEmpty;
    LowerOfHex(exec);
    HexToBytesIsUnhex(exec);
    index, size := Whole(env, Prop(mi, INDEX).num), Whole(env, Prop(mi, SIZE).num);
    path := PathBytes(env, Prop(mi, PATH).items).value;
    root := Merkle.Root(env.h, Merkle.LeafHash(env.h, Unhex(exec)), index, size, path).value;
  }

  lemma BindingRoot(env: Env, binding: Json, exec: JsString)
    requires CheckBinding(env, binding, exec) == Some(true) && Truthy(Prop(binding, INCLUSION))
    ensures AnchoredHash(env, binding).Some? && VerifyMerkle(env, Prop(binding, INCLUSION), exec).RootHex?
    ensures Lower(VerifyMerkle(env, Prop(binding, INCLUSION), exec).hex) == AnchoredHash(env, binding).value
  {
  }

  /** Every Merkle-anchored binding of a passed receipt rebuilds its anchored hash, as a tree head, from the
      payload digest at its index. */
  lemma AnchorsHold(env: Env, a: Json, i: nat) returns (index: nat, size: nat, path: seq<Data>, root: Data)
    requires Outcome(env, a) == Pass && i < |Bindings(a)| && Truthy(Prop(Bindings(a)[i], INCLUSION))
    ensures Placed(env, a, i, index, size, path, root)
    ensures Merkle.Root(env.h, Merkle.LeafHash(env.h, Leaf(env, a)), index, size, path) == Some(root)
    ensures |root| == 32
  {
    hide Outcome, CheckBinding, VerifyMerkle, PathBytes, Merkle.Root, Merkle.LeafHash, Hex, Whole, AnchoredHash;
    hide ProofsValid, StatedHash, Recomputed, PayloadDigest, StructOk;
    PassExactly(env, a);
    PassedHash(env, a);
    var binding, d := Bindings(a)[i], Leaf(env, a);
    var mi := Prop(binding, INCLUSION);
    BindingRoot(env, binding, StatedHash(a));
    UnhexOfHex(d);
    index, size, path, root := MerkleHolds(env, mi, StatedHash(a));
    LowerOfHex(Hex(root));
    RootLength(env.h, d, index, size, path);
  }

  /** Every other binding of a passed receipt states its execution hash. */
  lemma DirectAnchorsHold(env: Env, a: Json, i: nat)
    requires Outcome(env, a) == Pass && i < |Bindings(a)| && !Truthy(Prop(Bindings(a)[i], INCLUSION))
    ensures AnchoredHash(env, Bindings(a)[i]) == Some(Hex(Leaf(env, a)))
  {
    hide Outcome, Bindings, ProofsValid, Recomputed, Hex, AnchoredHash, StatedHash, PayloadDigest;
    PassExactly(env, a);
    PassedHash(env, a);
    LowerOfHex(Hex(Leaf(env, a)));
  }

  lemma RootLength(h: Hash, d: Data, index: nat, size: nat, path: seq<Data>)
    ensures Merkle.Root(h, Merkle.LeafHash(h, d), index, size, path).Some? ==>
      |Merkle.Root(h, Merkle.LeafHash(h, d), index, size, path).value| == 32
  {
  }

  /** If the anchored hash is the tree head of a list, that list holds the payload digest at one place, the stated
      index and size describe the route to it, and the stated path is its audit path. The stated index is that place
      exactly when it has the same route in the list, as it has when the stated size is that of the list. Otherwise
      the returned byte strings collide. */
  lemma AnchoredInTree(env: Env, a: Json, i: nat, d: seq<Data>)
    returns (index: nat, size: nat, path: seq<Data>, place: nat, x: Data, y: Data)
    requires Outcome(env, a) == Pass && i < |Bindings(a)| && Truthy(Prop(Bindings(a)[i], INCLUSION))
    requires d != [] && AnchoredHash(env, Bindings(a)[i]) == Some(Hex(Merkle.Mth(env.h, d)))
    ensures Placed(env, a, i, index, size, path, Merkle.Mth(env.h, d))
    ensures Collision(env.h, x, y) ||
      (&& Merkle.SameRoute(place, |d|, index, size)
       && d[place] == Leaf(env, a) && path == Merkle.AuditPath(env.h, place, d)
       && (place == index <==> Merkle.SameRoute(index, |d|, index, size))
       && (size == |d| ==> place == index))
  {
    hide Outcome, Merkle.Root, Merkle.Mth, Hex, Bindings, AnchoredHash, Leaf, Whole, PathBytes, Merkle.Route;
    var root;
    index, size, path, root := AnchorsHold(env, a, i);
    HexInjective(root, Merkle.Mth(env.h, d));
    place, x, y := Merkle.Located(env.h, Leaf(env, a), index, size, d, path);
    if !Collision(env.h, x, y) { Merkle.IndexIsTrue(place, |d|, index, size); }
  }

  /** One place under one anchored hash holds one payload: receipts anchored there carry the same values, or the
      returned byte strings collide. Indices and sizes mean one place when their routes are equal. */
  lemma OnePlaceOnePayload(env: Env, a: Json, i: nat, a': Json, i': nat, index: nat, size: nat, index': nat, size': nat,
                           path: seq<Data>, path': seq<Data>, root: Data)
    returns (x: Data, y: Data)
    requires Js(a) && Js(a') && Outcome(env, a) == Pass && Outcome(env, a') == Pass
    requires Placed(env, a, i, index, size, path, root) && Placed(env, a', i', index', size', path', root)
    requires Merkle.SameRoute(index, size, index', size')
    requires Truthy(Prop(Bindings(a)[i], INCLUSION)) && Truthy(Prop(Bindings(a')[i'], INCLUSION))
    ensures Collision(env.h, x, y) ||
      (Same(Prop(a, POLICY), Prop(a', POLICY)) && Same(Prop(a, OUTPUT), Prop(a', OUTPUT)))
  {
    hide Outcome, Merkle.Root, Hex, Bindings, AnchoredHash, Leaf, Same, Js, Whole, PathBytes, StructOk, Merkle.Route;
    PlacedRoot(env, a, i, index, size, path, root);
    PlacedRoot(env, a', i', index', size', path', root);
    x, y := Merkle.Binding(env.h, Leaf(env, a), Leaf(env, a'), index, size, index', size', path, path');
    if !Collision(env.h, x, y) {
      SameLeafSameHash(env, a, a');
      x, y := TamperEvidence(env, a, a');
    }
  }

  lemma PlacedRoot(env: Env, a: Json, i: nat, index: nat, size: nat, path: seq<Data>, root: Data)
    requires Outcome(env, a) == Pass && Placed(env, a, i, index, size, path, root)
    requires Truthy(Prop(Bindings(a)[i], INCLUSION))
    ensures Merkle.Root(env.h, Merkle.LeafHash(env.h, Leaf(env, a)), index, size, path) == Some(root)
  {
    hide Outcome, Merkle.Root, Hex, Bindings, AnchoredHash, Leaf, Whole, PathBytes;
    var index', size', path', root' := AnchorsHold(env, a, i);
    HexInjective(root, root');
  }

  lemma SameLeafSameHash(env: Env, a: Json, a': Json)
    requires Outcome(env, a) == Pass && Outcome(env, a') == Pass && Leaf(env, a) == Leaf(env, a')
    ensures StructOk(a) && StructOk(a') && StatedHash(a) == StatedHash(a')
  {
    hide Outcome, Hex, StatedHash, PayloadDigest, StructOk;
    PassedHash(env, a);
    PassedHash(env, a');
  }

  // ---------------------------------------------------------------------------------------------
  // Honest anchors pass

  function HexList(path: seq<Data>): (items: seq<Json>)
    ensures |items| == |path|
  {
    seq(|path|, i requires 0 <= i < |path| => Str(Hex(path[i])))
  }

  /** The binding of leaf index of the list d, with the numbers as they stand in the artifact. */
  function Anchoring(h: Hash, d: seq<Data>, m: nat, index: Number, size: Number): Json
    requires m < |d|
  {
    var mi := Obj([Member(ALGORITHM, Str(Lit("rfc6962"))), Member(LEAF, Str(Hex(d[m]))), Member(INDEX, Num(index)),
                   Member(SIZE, Num(size)), Member(PATH, Arr(HexList(Merkle.AuditPath(h, m, d))))]);
    Obj([Member(ANCHORED, Str(Hex(Merkle.Mth(h, d)))), Member(INCLUSION, mi)])
  }

  lemma {:induction false} HexListBytes(env: Env, path: seq<Data>)
    ensures PathBytes(env, HexList(path)) == Some(path)
  {
    hide Hex, HexToBytes, Strip;
    if path != [] {
      HexListBytes(env, path[1..]);
      assert HexList(path)[1..] == HexList(path[1..]);
      StripHex(Hex(path[0]));
      HexToBytesIsUnhex(Hex(path[0]));
      UnhexOfHex(path[0]);
      assert path == [path[0]] + path[1..];
    }
  }

  lemma AnchoringParts(h: Hash, d: seq<Data>, m: nat, index: Number, size: Number)
    requires m < |d|
    ensures var binding := Anchoring(h, d, m, index, size); var mi := Prop(binding, INCLUSION);
      && Prop(binding, ANCHORED) == Str(Hex(Merkle.Mth(h, d))) && mi.Obj?
      && Prop(mi, ALGORITHM) == Str(Lit("rfc6962")) && Prop(mi, LEAF) == Str(Hex(d[m]))
      && Prop(mi, INDEX) == Num(index) && Prop(mi, SIZE) == Num(size)
      && Prop(mi, PATH) == Arr(HexList(Merkle.AuditPath(h, m, d)))
  {
    hide Lit, Hex, Merkle.Mth, HexList;
    var binding := Anchoring(h, d, m, index, size);
    assert binding.members[0].name == ANCHORED && binding.members[1].name == INCLUSION && |ANCHORED| != |INCLUSION|;
    LookupAt(binding.members, 0);
    LookupAt(binding.members, 1);
    var ms := binding.members[1].value.members;
    assert |ALGORITHM| == 9 && |SIZE| == 9 && LEAF != INDEX;
    assert ALGORITHM != SIZE && LEAF != PATH by { Spelling(); }
    assert DistinctNames(ms);
    LookupAt(ms, 0);
    LookupAt(ms, 1);
    LookupAt(ms, 2);
    LookupAt(ms, 3);
    LookupAt(ms, 4);
  }

  lemma Spelling()
    ensures ALGORITHM != SIZE && LEAF != PATH
  {
    assert Lit("algorithm")[0] == 97 && Lit("tree_size")[0] == 116;
    assert Lit("leaf")[0] == 108 && Lit("path")[0] == 112;
  }

  /** The binding of a leaf with its audit path holds, for every list and every index and size with the route of
      that leaf. */
  lemma RoutedBinding(env: Env, d: seq<Data>, m: nat, index: Number, size: Number)
    requires m < |d| && |d[m]| == 32
    requires NonNegativeInteger(Num(index)) && NonNegativeInteger(Num(size)) && !size.Zero?
    requires Merkle.SameRoute(m, |d|, Whole(env, index), Whole(env, size))
    ensures CheckBinding(env, Anchoring(env.h, d, m, index, size), Hex(d[m])) == Some(true)
  {
    hide Hex, HexToBytes, Strip, Lower, Merkle.Root, Merkle.Mth, Merkle.LeafHash, Merkle.AuditPath, PathBytes;
    hide Anchoring, Whole, Prop, Merkle.Route;
    var binding, exec, head := Anchoring(env.h, d, m, index, size), Hex(d[m]), Hex(Merkle.Mth(env.h, d));
    AnchoringParts(env.h, d, m, index, size);
    StripHex(exec);
    LowerOfHex(exec);
    StripHex(head);
    LowerOfHex(head);
    HexListBytes(env, Merkle.AuditPath(env.h, m, d));
    HexToBytesIsUnhex(exec);
    UnhexOfHex(d[m]);
    Merkle.Accepted(env.h, m, d, Whole(env, index), Whole(env, size));
    BindingIsObject(env.h, d, m, index, size);
  }

  /** So it does with the true index and size. */
  lemma HonestBinding(env: Env, d: seq<Data>, m: nat, index: Number, size: Number)
    requires m < |d| && |d[m]| == 32
    requires NonNegativeInteger(Num(index)) && Whole(env, index) == m
    requires NonNegativeInteger(Num(size)) && !size.Zero? && Whole(env, size) == |d|
    ensures CheckBinding(env, Anchoring(env.h, d, m, index, size), Hex(d[m])) == Some(true)
  {
    hide *;
    TrueRoute(m, |d|);
    RoutedBinding(env, d, m, index, size);
  }

  lemma TrueRoute(m: nat, n: nat)
    requires m < n
    ensures Merkle.SameRoute(m, n, m, n)
  {
  }

  /** But not only then: the last of five leaves is accepted as index 2 of 3. */
  lemma FalseIndexPasses(env: Env, d: seq<Data>, index: Number, size: Number)
    requires |d| == 5 && |d[4]| == 32
    requires NonNegativeInteger(Num(index)) && Whole(env, index) == 2
    requires NonNegativeInteger(Num(size)) && !size.Zero? && Whole(env, size) == 3
    ensures CheckBinding(env, Anchoring(env.h, d, 4, index, size), Hex(d[4])) == Some(true)
  {
    hide *;
    Merkle.LastOfFive(env.h, d);
    RoutedBinding(env, d, 4, index, size);
  }

  lemma BindingIsObject(h: Hash, d: seq<Data>, m: nat, index: Number, size: Number)
    requires m < |d|
    ensures Anchoring(h, d, m, index, size).Obj?
  {
  }

  // ---------------------------------------------------------------------------------------------
  // Honest proofs verify

  const DID := Lit("did:key:z")

  /** didFromPub: the did:key of a raw public key. */
  function DidOf(key: Data): Json { Str(DID + Base58.Encoded([0xED, 0x01] + key)) }

  /** The badge reads back the key that a did:key was made from. */
  lemma DidKeyRoundTrip(key: Data)
    ensures DidKey(DidOf(key)) == Some(key)
  {
    hide Base58.Encoded, Base58.Decoded, Lit;
    var bytes := [0xED, 0x01] + key;
    Base58.EncodedReturns(bytes);
    assert (DID + Base58.Encoded(bytes))[9..] == Base58.Encoded(bytes);
    assert bytes[2..] == key;
  }

  /** Verifying a signed artifact in the badge asks the key of the did:key about the signature, over the options it
      was made with and the artifact without the proof. */
  lemma BadgeVerifySigned(env: Env, ms: seq<Member>, key: Data, created: Json, signature: Data)
    requires DistinctNames(ms)
    ensures var signed := Signed(Obj(ms), ProofOf(DidOf(key), created, signature));
      SecuredRecord(signed).Some? &&
      (ProofsValid(env, signed) <==>
       env.verify(key, Base58.Returned(signature),
                  Message(env.h, Options(DidOf(key), created), SecuredRecord(signed).value)))
  {
    hide Options, ProofOf, WellShaped, Rebuilt, Message, Stringify, Put, Delete, Base58.Encoded, Base58.Decoded;
    hide Base58.Returned, SecuredRecord, With, DidOf, DidKey;
    var proof := ProofOf(DidOf(key), created, signature);
    var signed := Signed(Obj(ms), proof);
    ProofParts(DidOf(key), created, signature);
    ProofMethod(DidOf(key), created, signature);
    SecuredSigned(ms, proof);
    SignedProof(ms, proof);
    OneProof(signed, proof);
    Base58.EncodedReturns(signature);
    DidKeyRoundTrip(key);
    assert ([Z] + Base58.Encoded(signature))[1..] == Base58.Encoded(signature);
    assert Proofs(signed)[0] == proof;
  }

  /** What the kit signs, the badge verifies with the key of the did:key, for every artifact whose audit_signature
      holds something beside a proof and no __proto__. */
  lemma BadgeRoundTrip(env: Env, ms: seq<Member>, key: Data, created: Json, signer: Data -> Data)
    requires Js(Obj(ms)) && Lookup(ms, SIGNATURE).Obj?
    requires Delete(Lookup(ms, SIGNATURE).members, PROOF) != []
    requires Lookup(Lookup(ms, SIGNATURE).members, PROTO).Undefined?
    ensures Secured(Obj(ms)).Some? && KitSign(env.h, Obj(ms), DidOf(key), created, signer).Some?
    ensures var message := Message(env.h, Options(DidOf(key), created), Secured(Obj(ms)).value);
      var signature := Base58.Returned(signer(message));
      (ProofsValid(env, KitSign(env.h, Obj(ms), DidOf(key), created, signer).value) <==>
       env.verify(key, signature, message))
  {
    hide *;
    SecuredDefined(ms);
    JsMembers(ms);
    KitSignIs(env.h, Obj(ms), DidOf(key), created, signer);
    var message := Message(env.h, Options(DidOf(key), created), Secured(Obj(ms)).value);
    var signature := signer(message);
    var proof := ProofOf(DidOf(key), created, signature);
    var signed := Signed(Obj(ms), proof);
    BadgeRestoresKit(ms, proof);
    SecuredSigned(ms, proof);
    SameMessage(env.h, Options(DidOf(key), created), SecuredRecord(signed).value, Secured(Obj(ms)).value);
    BadgeVerifySigned(env, ms, key, created, signature);
  }

  /** What signRecord signs, the badge verifies with that key, under the condition of the record signer. */
  lemma BadgeRecordRoundTrip(env: Env, ms: seq<Member>, key: Data, created: Json, signer: Data -> Data)
    requires Js(Obj(ms)) && Js(created) && Records.BadgeVerifiesRecord(ms, DidOf(key), created)
    ensures SecuredRecord(Obj(ms)).Some? && Records.RecordSign(env.h, Obj(ms), DidOf(key), created, signer).Some?
    ensures var message := Records.RecordMessage(env.h, Options(DidOf(key), created), SecuredRecord(Obj(ms)).value);
      var signature := Base58.Returned(signer(message));
      (ProofsValid(env, Records.RecordSign(env.h, Obj(ms), DidOf(key), created, signer).value) <==>
       env.verify(key, signature, message))
  {
    hide *;
    Records.SuitedFor(ms, DidOf(key), created);
    Records.RecordSignIs(env.h, Obj(ms), DidOf(key), created, signer);
    JsMembers(ms);
    DidIsJs(key);
    var message := Records.RecordMessage(env.h, Options(DidOf(key), created), SecuredRecord(Obj(ms)).value);
    var signature := signer(message);
    var proof := ProofOf(DidOf(key), created, signature);
    var x, y := Records.BadgeMessageOfRecord(env.h, ms, DidOf(key), created, proof);
    BadgeVerifySigned(env, ms, key, created, signature);
  }

  lemma DidIsJs(key: Data)
    ensures Js(DidOf(key))
  {
  }

  lemma ProofMethod(method_: Json, created: Json, signature: Data)
    ensures Prop(ProofOf(method_, created, signature), METHOD) == method_ && ProofOf(method_, created, signature).Obj?
  {
    hide Lit, Base58.Encoded;
    var ms := ProofOf(method_, created, signature).members;
    assert DistinctNames(ms);
    LookupAt(ms, 2);
  }

  lemma OneProof(signed: Json, proof: Json)
    requires Truthy(Prop(signed, SIGNATURE)) && Prop(Prop(signed, SIGNATURE), PROOF) == proof && proof.Obj?
    ensures Proofs(signed) == [proof]
  {
  }

  // ---------------------------------------------------------------------------------------------
  // An honest receipt passes

  /** A receipt before it is signed: its payload, the hash of it, one anchor, and what else audit_signature holds. */
  function Draft(h: Hash, policy: Json, output: Json, binding: Json, extra: seq<Member>): seq<Member> {
    [Member(POLICY, policy), Member(OUTPUT, output), Member(EXECUTION, Str(Hex(PayloadDigest(h, policy, output)))),
     Member(BINDINGS, Arr([binding])), Member(SIGNATURE, Obj(extra))]
  }

  lemma DraftNames()
    ensures |POLICY| == 17 && |OUTPUT| == |EXECUTION| == 14 && |BINDINGS| == |SIGNATURE| == 15
    ensures OUTPUT != EXECUTION && BINDINGS != SIGNATURE
  {
    assert OUTPUT[0] == 111 && EXECUTION[0] == 101 && BINDINGS[1] == 110 && SIGNATURE[1] == 117;
  }

  lemma DraftLookups(h: Hash, policy: Json, output: Json, binding: Json, extra: seq<Member>)
    ensures var ms := Draft(h, policy, output, binding, extra);
      && DistinctNames(ms)
      && Lookup(ms, POLICY) == policy && Lookup(ms, OUTPUT) == output
      && Lookup(ms, EXECUTION) == Str(Hex(PayloadDigest(h, policy, output)))
      && Lookup(ms, BINDINGS) == Arr([binding]) && Lookup(ms, SIGNATURE) == Obj(extra)
  {
    hide Lit, Hex, PayloadDigest;
    DraftNames();
    var ms := Draft(h, policy, output, binding, extra);
    LookupAt(ms, 0);
    LookupAt(ms, 1);
    LookupAt(ms, 2);
    LookupAt(ms, 3);
    LookupAt(ms, 4);
  }

  lemma DraftIsJs(h: Hash, policy: Json, output: Json, binding: Json, extra: seq<Member>)
    requires Js(policy) && Js(output) && Js(binding) && Js(Obj(extra))
    ensures Js(Obj(Draft(h, policy, output, binding, extra)))
  {
    hide Lookup, Lit, Hex, PayloadDigest;
    DraftLookups(h, policy, output, binding, extra);
    var ms := Draft(h, policy, output, binding, extra);
    assert Js(ms[3].value) && Js(ms[2].value);
    assert forall i :: 0 <= i < |ms| ==> Js(ms[i].value);
  }

  lemma HexListIsJs(path: seq<Data>)
    ensures Js(Arr(HexList(path)))
  {
    hide Hex;
  }

  lemma AnchoringIsJs(h: Hash, d: seq<Data>, m: nat, index: Number, size: Number)
    requires m < |d|
    ensures Js(Anchoring(h, d, m, index, size))
  {
    hide Lit, Hex, Merkle.Mth, HexList;
    Spelling();
    assert |ALGORITHM| == 9 && |LEAF| == 4 && |INDEX| == 5 && |SIZE| == 9 && |PATH| == 4;
    assert |ANCHORED| == 13 && |INCLUSION| == 16;
    HexListIsJs(Merkle.AuditPath(h, m, d));
    var binding := Anchoring(h, d, m, index, size);
    var mi := binding.members[1].value;
    assert DistinctNames(mi.members);
    assert Js(mi);
    assert DistinctNames(binding.members);
  }

  /** What signing leaves of a draft. */
  lemma SignedLookups(ms: seq<Member>, proof: Json, name: JsString)
    requires name != SIGNATURE
    ensures Prop(Signed(Obj(ms), proof), name) == Lookup(ms, name)
  {
    hide Put, Lookup, Base;
    LookupPut(ms, SIGNATURE, Obj(Put(Base(Lookup(ms, SIGNATURE)), PROOF, proof)), name);
  }

  /** A receipt with the hash of its payload and one true anchor passes exactly when its proofs verify. */
  lemma DraftOutcome(env: Env, policy: Json, output: Json, binding: Json, extra: seq<Member>, proof: Json)
    requires IsObject(policy) && IsObject(output) && IJson.NumbersOk(Preimage(policy, output))
    requires CheckBinding(env, binding, Hex(PayloadDigest(env.h, policy, output))) == Some(true)
    ensures var signed := Signed(Obj(Draft(env.h, policy, output, binding, extra)), proof);
      Outcome(env, signed) == Pass <==> ProofsValid(env, signed)
  {
    hide Hex, PayloadDigest, CheckBinding, ProofsValid, Draft, Outcome, Signed, Prop, Lookup, Strip, Lower, Lit;
    var ms := Draft(env.h, policy, output, binding, extra);
    var signed, exec := Signed(Obj(ms), proof), Hex(PayloadDigest(env.h, policy, output));
    DraftNames();
    DraftLookups(env.h, policy, output, binding, extra);
    SignedLookups(ms, proof, POLICY);
    SignedLookups(ms, proof, OUTPUT);
    SignedLookups(ms, proof, EXECUTION);
    SignedLookups(ms, proof, BINDINGS);
    StripHex(exec);
    LowerOfHex(exec);
    PassExactly(env, signed);
    assert StructOk(signed) && StatedHash(signed) == exec && Recomputed(env, signed) == Some(exec);
    assert Bindings(signed) == [binding];
    assert CheckBinding(env, Bindings(signed)[0], exec) == Some(true);
  }

  /** An honest receipt: the payload and its hash, its digest anchored in any list with the audit path, signed by the
      kit with a did:key. The badge passes it exactly when the key accepts the signature over the signed message. */
  lemma HonestReceipt(env: Env, policy: Json, output: Json, d: seq<Data>, m: nat, index: Number, size: Number,
                      extra: seq<Member>, key: Data, created: Json, signer: Data -> Data)
    requires IsObject(policy) && IsObject(output) && Js(policy) && Js(output)
    requires IJson.NumbersOk(Preimage(policy, output))
    requires m < |d| && d[m] == PayloadDigest(env.h, policy, output)
    requires NonNegativeInteger(Num(index)) && Whole(env, index) == m
    requires NonNegativeInteger(Num(size)) && !size.Zero? && Whole(env, size) == |d|
    requires Js(Obj(extra)) && Delete(extra, PROOF) != [] && Lookup(extra, PROTO).Undefined?
    ensures var a := Obj(Draft(env.h, policy, output, Anchoring(env.h, d, m, index, size), extra));
      Secured(a).Some? && KitSign(env.h, a, DidOf(key), created, signer).Some?
      && var message := Message(env.h, Options(DidOf(key), created), Secured(a).value);
      var signature := Base58.Returned(signer(message));
      (Outcome(env, KitSign(env.h, a, DidOf(key), created, signer).value) == Pass <==>
       env.verify(key, signature, message))
  {
    hide *;
    var binding := Anchoring(env.h, d, m, index, size);
    var ms := Draft(env.h, policy, output, binding, extra);
    AnchoringIsJs(env.h, d, m, index, size);
    DraftIsJs(env.h, policy, output, binding, extra);
    DraftLookups(env.h, policy, output, binding, extra);
    HonestBinding(env, d, m, index, size);
    BadgeRoundTrip(env, ms, key, created, signer);
    KitSignIs(env.h, Obj(ms), DidOf(key), created, signer);
    var signature := signer(Message(env.h, Options(DidOf(key), created), Secured(Obj(ms)).value));
    DraftOutcome(env, policy, output, binding, extra, ProofOf(DidOf(key), created, signature));
  }
}
