/** Signing and verifying: which document each helper hashes once it has set the proof aside, when the document
    verified is the document signed, and what the signed 64 bytes fix. */
module Signing {
  import opened Bytes
  import opened Text
  import opened Json
  import opened JsonEquality
  import opened Objects
  import Base58
  import JsonReader

  const SIGNATURE := Lit("audit_signature")
  const PROOF := Lit("proof")
  const TYPE := Lit("type")
  const SUITE := Lit("cryptosuite")
  const METHOD := Lit("verificationMethod")
  const PURPOSE := Lit("proofPurpose")
  const CREATED := Lit("created")
  const VALUE := Lit("proofValue")

  // ---------------------------------------------------------------------------------------------
  // The documents that are hashed

  /** An own enumerable member list of an array: its indices. */
  function Indexed(items: seq<Json>, from: nat): seq<Member> {
    if items == [] then [] else [Member(IndexName(from), items[0])] + Indexed(items[1..], from + 1)
  }

  function IndexName(n: nat): (s: JsString)
    ensures s != [] && 48 <= s[0] <= 57
  {
    JsonReader.Numerals.Chars(JsonReader.Numerals.Decimal(n))
  }

  /** secured of the kit: None is the exception on a primitive audit_signature. */
  function Secured(a: Json): Option<Json> {
    var sig := Prop(a, SIGNATURE);
    if !Truthy(sig) then Some(a)
    else
      match sig
      case Obj(ms) =>
        var rest := Delete(ms, PROOF);
        Some(Obj(if rest == [] then Delete(a.members, SIGNATURE) else Put(a.members, SIGNATURE, Obj(rest))))
      case Arr(items) => Some(if items == [] then Obj(Delete(a.members, SIGNATURE)) else a)
      case _ => None
  }

  /** securedRecord, and securedArtifact of the badge, which do not remove an audit_signature they emptied. */
  function SecuredRecord(a: Json): Option<Json> {
    var sig := Prop(a, SIGNATURE);
    if !Truthy(sig) then Some(a)
    else
      match sig
      case Obj(ms) => Some(Obj(Put(a.members, SIGNATURE, Obj(Delete(ms, PROOF)))))
      case Arr(_) => Some(a)
      case _ => None
  }

  /** Object.assign({}, out.audit_signature || {}) for the values that reach it. It assigns member by member, so a
      member named __proto__ is lost. */
  function Base(sig: Json): seq<Member> {
    if sig.Obj? then Delete(sig.members, PROTO) else if sig.Arr? then Indexed(sig.items, 0) else []
  }

  /** The signed artifact of sign and signRecord. */
  function Signed(a: Json, proof: Json): Json
    requires a.Obj?
  {
    Obj(Put(a.members, SIGNATURE, Obj(Put(Base(Lookup(a.members, SIGNATURE)), PROOF, proof))))
  }

  method SecuredClone(a: Json) returns (r: Option<Json>)
    ensures r == Secured(a)
  {
    var sig := Prop(a, SIGNATURE);
    if Truthy(sig) {
      if !sig.Obj? && !sig.Arr? { return None; }
      var c := a.members;
      var own := if sig.Obj? then sig.members else Indexed(sig.items, 0);
      if sig.Obj? {
        own := Delete(own, PROOF);
        c := Put(c, SIGNATURE, Obj(own));
      }
      if own == [] { c := Delete(c, SIGNATURE); }
      DeletePut(a.members, SIGNATURE, Obj(own));
      return Some(Obj(c));
    }
    r := Some(a);
  }

  method SecuredRecordClone(a: Json) returns (r: Option<Json>)
    ensures r == SecuredRecord(a)
  {
    var sig := Prop(a, SIGNATURE);
    if Truthy(sig) {
      if !sig.Obj? && !sig.Arr? { return None; }
      var c := a.members;
      if sig.Obj? { c := Put(c, SIGNATURE, Obj(Delete(sig.members, PROOF))); }
      return Some(Obj(c));
    }
    r := Some(a);
  }

  // ---------------------------------------------------------------------------------------------
  // When the document verified is the document signed

  /** The members with audit_signature set to w, or removed. */
  function With(ms: seq<Member>, w: Option<Json>): seq<Member> {
    if w.Some? then Put(ms, SIGNATURE, w.value) else Delete(ms, SIGNATURE)
  }

  predicate SameSignature(v: Option<Json>, w: Option<Json>) {
    v.Some? == w.Some? && (v.Some? ==> Normal(v.value) == Normal(w.value))
  }

  /** What audit_signature is; a member with the value undefined is none. */
  function Current(ms: seq<Member>): Option<Json> {
    var sig := Lookup(ms, SIGNATURE);
    if sig.Undefined? then None else Some(sig)
  }

  lemma CurrentText(ms: seq<Member>)
    requires DistinctNames(ms)
    ensures Stringify(Obj(With(ms, Current(ms)))) == Stringify(Obj(ms))
  {
    hide Sort, Emit;
    if Lookup(ms, SIGNATURE).Undefined? {
      DeleteUndefined(ms, SIGNATURE);
    } else {
      PutSame(ms, SIGNATURE);
    }
  }

  lemma WithDistinct(ms: seq<Member>, w: Option<Json>)
    requires DistinctNames(ms)
    ensures DistinctNames(With(ms, w))
  {
    if w.Some? { PutDistinct(ms, SIGNATURE, w.value); } else { DeleteDistinct(ms, SIGNATURE); }
  }

  lemma WithLookup(ms: seq<Member>, w: Option<Json>, name: JsString)
    ensures Lookup(With(ms, w), name) ==
      if name != SIGNATURE then Lookup(ms, name) else if w.Some? then w.value else Undefined
  {
    if w.Some? { LookupPut(ms, SIGNATURE, w.value, name); } else { LookupDelete(ms, SIGNATURE, name); }
  }

  /** A normal member is the normal form of what its name looks up. */
  lemma NormalLookup(ms: seq<Member>, m: Member)
    requires DistinctNames(ms)
    ensures m in NormalMembers(ms) <==> !Lookup(ms, m.name).Undefined? && m.value == Normal(Lookup(ms, m.name))
  {
    InNormalMembers(ms, m);
    if m in NormalMembers(ms) {
      var i: nat :| Carries(ms, i, m);
      LookupAt(ms, i);
    }
    if !Lookup(ms, m.name).Undefined? && m.value == Normal(Lookup(ms, m.name)) {
      var i := LookupFinds(ms, m.name);
      assert Carries(ms, i, m);
    }
  }

  /** Artifacts that differ at most in audit_signature print alike exactly when they agree there. */
  lemma WithText(ms: seq<Member>, v: Option<Json>, w: Option<Json>)
    requires DistinctNames(ms) && v != Some(Undefined) && w != Some(Undefined)
    ensures Stringify(Obj(With(ms, v))) == Stringify(Obj(With(ms, w))) <==> SameSignature(v, w)
  {
    hide *;
    var a, b := With(ms, v), With(ms, w);
    WithDistinct(ms, v);
    WithDistinct(ms, w);
    JsonReader.StringifyInjective(Obj(a), Obj(b));
    NormalOfObj(a);
    NormalOfObj(b);
    NormalDistinct(a);
    NormalDistinct(b);
    SortForgetsOrder(NormalMembers(a), NormalMembers(b));
    forall m ensures (m in NormalMembers(a) <==> m in NormalMembers(b))
      || (m.name == SIGNATURE && !SameSignature(v, w)) {
      WithMember(ms, v, m);
      WithMember(ms, w, m);
      if SameSignature(v, w) { SignaturesAgree(v, w, m); }
    }
    if !SameSignature(v, w) {
      var m := Witness(v, w);
      WithMember(ms, v, m);
      WithMember(ms, w, m);
    }
  }

  lemma NormalOfObj(ms: seq<Member>)
    ensures Normal(Obj(ms)) == Obj(Sort(NormalMembers(ms)))
  {
  }

  predicate Shows(w: Option<Json>, m: Member) { w.Some? && m.value == Normal(w.value) }

  lemma WithMember(ms: seq<Member>, w: Option<Json>, m: Member)
    requires DistinctNames(ms) && w != Some(Undefined)
    ensures m in NormalMembers(With(ms, w)) <==>
      if m.name == SIGNATURE then Shows(w, m)
      else !Lookup(ms, m.name).Undefined? && m.value == Normal(Lookup(ms, m.name))
  {
    WithDistinct(ms, w);
    NormalLookup(With(ms, w), m);
    WithLookup(ms, w, m.name);
  }

  lemma SignaturesAgree(v: Option<Json>, w: Option<Json>, m: Member)
    requires SameSignature(v, w)
    ensures Shows(v, m) == Shows(w, m)
  {
  }

  lemma Witness(v: Option<Json>, w: Option<Json>) returns (m: Member)
    requires !SameSignature(v, w)
    ensures m.name == SIGNATURE && Shows(v, m) != Shows(w, m)
  {
    m := Member(SIGNATURE, Normal(if v.Some? then v.value else w.value));
  }

  /** The text of a document, as it is hashed. */
  function TextOf(v: Option<Json>): Option<JsString> {
    if v.Some? then Stringify(v.value) else None
  }

  /** What each document holds under audit_signature. */
  function KitSignature(sig: Json): Option<Json> {
    match sig
    case Undefined => None
    case Obj(ms) => if Delete(ms, PROOF) == [] then None else Some(Obj(Delete(ms, PROOF)))
    case Arr(items) => if items == [] then None else Some(sig)
    case _ => Some(sig)
  }

  lemma SecuredText(ms: seq<Member>)
    requires DistinctNames(ms) && Secured(Obj(ms)).Some?
    ensures TextOf(Secured(Obj(ms))) == Stringify(Obj(With(ms, KitSignature(Lookup(ms, SIGNATURE)))))
  {
    hide Stringify, Delete, Put;
    CurrentText(ms);
  }

  /** The signed artifact, secured again. */
  lemma SecuredSigned(ms: seq<Member>, proof: Json)
    requires DistinctNames(ms)
    ensures var rest := Delete(Base(Lookup(ms, SIGNATURE)), PROOF);
      && Secured(Signed(Obj(ms), proof)) == Some(Obj(With(ms, if rest == [] then None else Some(Obj(rest)))))
      && SecuredRecord(Signed(Obj(ms), proof)) == Some(Obj(With(ms, Some(Obj(rest)))))
  {
    hide Delete, Put, Lookup;
    var base := Base(Lookup(ms, SIGNATURE));
    var signature := Obj(Put(base, PROOF, proof));
    LookupPut(ms, SIGNATURE, signature, SIGNATURE);
    DeletePut(base, PROOF, proof);
    DeletePut(ms, SIGNATURE, signature);
    PutPut(ms, SIGNATURE, signature, Obj(Delete(base, PROOF)));
  }

  /** Whether assigning the members to an empty object keeps what prints: no member is named __proto__, not even
      one with the value undefined when nothing else is left beside a proof. */
  predicate Assignable(ms: seq<Member>) {
    Lookup(ms, PROTO).Undefined? && (Delete(Delete(ms, PROTO), PROOF) == [] ==> Delete(ms, PROOF) == [])
  }

  /** Losing __proto__ shows in the text exactly when that member is live. */
  lemma ProtoShows(ms: seq<Member>)
    requires DistinctNames(ms)
    ensures Normal(Obj(Delete(Delete(ms, PROTO), PROOF))) == Normal(Obj(Delete(ms, PROOF))) <==>
      Lookup(ms, PROTO).Undefined?
  {
    hide Lit, Delete, Lookup, Sort, NormalMembers, Normal;
    var d := Delete(ms, PROOF);
    assert |PROTO| == 9 && |PROOF| == 5;
    DeleteSwap(ms, PROTO, PROOF);
    DeleteDistinct(ms, PROOF);
    DeleteDistinct(d, PROTO);
    LookupDelete(ms, PROOF, PROTO);
    LookupDelete(d, PROTO, PROTO);
    NormalOfObj(d);
    NormalOfObj(Delete(d, PROTO));
    if Lookup(ms, PROTO).Undefined? {
      DeleteUndefined(d, PROTO);
    } else {
      var m := Member(PROTO, Normal(Lookup(d, PROTO)));
      NormalLookup(d, m);
      NormalLookup(Delete(d, PROTO), m);
      SortMembers(NormalMembers(d));
      SortMembers(NormalMembers(Delete(d, PROTO)));
    }
  }

  lemma SignatureIsJs(ms: seq<Member>)
    requires Js(Obj(ms)) && Lookup(ms, SIGNATURE).Obj?
    ensures DistinctNames(Lookup(ms, SIGNATURE).members) && Js(Lookup(ms, SIGNATURE))
  {
    PropIsJs(Obj(ms), SIGNATURE);
  }

  /** The kit verifies the document it signed exactly for an artifact whose audit_signature is absent, an empty
      list, or an object that an assignment keeps. */
  lemma KitRestores(ms: seq<Member>, proof: Json)
    requires Js(Obj(ms)) && Secured(Obj(ms)).Some?
    ensures var sig := Lookup(ms, SIGNATURE);
      TextOf(Secured(Signed(Obj(ms), proof))) == TextOf(Secured(Obj(ms))) <==>
      sig.Undefined? || sig == Arr([]) || (sig.Obj? && Assignable(sig.members))
  {
    hide Stringify, Delete, Put, Secured, With, Normal;
    var sig := Lookup(ms, SIGNATURE);
    var rest := Delete(Base(sig), PROOF);
    SecuredSigned(ms, proof);
    SecuredText(ms);
    BaseRest(sig);
    WithText(ms, if rest == [] then None else Some(Obj(rest)), KitSignature(sig));
    Shape(rest, sig);
    if sig.Obj? {
      SignatureIsJs(ms);
      ProtoShows(sig.members);
      DeleteSwap(sig.members, PROTO, PROOF);
      DeleteNothing(PROTO);
    }
  }

  lemma DeleteNothing(name: JsString)
    ensures Delete([], name) == []
  {
  }

  /** The badge verifies what the kit signed exactly when audit_signature held something beside a proof and no
      __proto__. */
  lemma BadgeRestoresKit(ms: seq<Member>, proof: Json)
    requires Js(Obj(ms)) && Secured(Obj(ms)).Some?
    ensures var sig := Lookup(ms, SIGNATURE);
      TextOf(SecuredRecord(Signed(Obj(ms), proof))) == TextOf(Secured(Obj(ms))) <==>
      sig.Obj? && Delete(sig.members, PROOF) != [] && Lookup(sig.members, PROTO).Undefined?
  {
    hide Stringify, Delete, Put, Secured, SecuredRecord, With, Normal;
    var sig := Lookup(ms, SIGNATURE);
    var rest := Delete(Base(sig), PROOF);
    SecuredSigned(ms, proof);
    SecuredText(ms);
    WithText(ms, Some(Obj(rest)), KitSignature(sig));
    Shape(rest, sig);
    if sig.Obj? {
      SignatureIsJs(ms);
      ProtoShows(sig.members);
    }
  }

  /** {"audit_signature": {"__proto__": {}}}: neither the kit nor the badge verifies the document that was signed. */
  lemma ProtoIsLost(proof: Json)
    ensures var a := Obj([Member(SIGNATURE, Obj([Member(PROTO, Obj([]))]))]);
      && Js(a) && Secured(a).Some?
      && TextOf(Secured(Signed(a, proof))) != TextOf(Secured(a))
      && TextOf(SecuredRecord(Signed(a, proof))) != TextOf(Secured(a))
  {
    hide Stringify, Put, Secured, SecuredRecord, Signed;
    var sig := Obj([Member(PROTO, Obj([]))]);
    var ms := [Member(SIGNATURE, sig)];
    assert Lookup(ms, SIGNATURE) == sig && Lookup(sig.members, PROTO) == Obj([]);
    assert Js(Obj([]));
    assert Js(sig);
    ObjectIsSecured(ms);
    KitRestores(ms, proof);
    BadgeRestoresKit(ms, proof);
  }

  lemma ObjectIsSecured(ms: seq<Member>)
    requires Lookup(ms, SIGNATURE).Obj?
    ensures Secured(Obj(ms)).Some? && SecuredRecord(Obj(ms)).Some?
  {
  }

  /** An object never prints as a value of another kind. */
  lemma Shape(rest: seq<Member>, sig: Json)
    ensures !sig.Obj? ==> Normal(Obj(rest)) != Normal(sig)
  {
  }

  /** The indices of a list are not deleted with the proof. */
  lemma BaseRest(sig: Json)
    ensures !sig.Obj? ==> (Delete(Base(sig), PROOF) == [] <==> Base(sig) == [])
    ensures sig.Arr? && sig.items != [] ==> Base(sig) != []
  {
    assert PROOF[0] == 112;
  }

  // ---------------------------------------------------------------------------------------------
  // Proofs

  const PROOF_TYPE := Str(Lit("DataIntegrityProof"))
  const EDDSA_JCS := Str(Lit("eddsa-jcs-2022"))
  const ASSERTION := Str(Lit("assertionMethod"))
  const Z: Unit := 122

  function Options(method_: Json, created: Json): Json {
    Obj([Member(TYPE, PROOF_TYPE), Member(SUITE, EDDSA_JCS), Member(METHOD, method_),
         Member(PURPOSE, ASSERTION), Member(CREATED, created)])
  }

  function ProofOf(method_: Json, created: Json, signature: Data): Json {
    Obj(Options(method_, created).members + [Member(VALUE, Str([Z] + Base58.Encoded(signature)))])
  }

  /** The options that a proof rebuilds when it is verified. */
  function Rebuilt(proof: Json): Json { Options(Prop(proof, METHOD), Prop(proof, CREATED)) }

  /** The checks on a proof before its signature is decoded. */
  predicate WellShaped(proof: Json) {
    && Prop(proof, TYPE) == PROOF_TYPE && Prop(proof, SUITE) == EDDSA_JCS && Prop(proof, PURPOSE) == ASSERTION
    && Prop(proof, VALUE).Str? && [Z] <= Prop(proof, VALUE).s
  }

  function DocBytes(v: Json): Data {
    if v.Undefined? then [] else TextEncode(Stringify(v).value)
  }

  /** hashData: the 64 bytes that are signed. */
  function Message(h: Hash, options: Json, doc: Json): (m: Data)
    ensures |m| == 64
  {
    h.Of(DocBytes(options)) + h.Of(DocBytes(doc))
  }

  /** sign; the private key is a function from messages to signatures. */
  function KitSign(h: Hash, a: Json, method_: Json, created: Json, signer: Data -> Data): Option<Json>
    requires a.Obj?
  {
    if Secured(a).None? then None else
      Some(Signed(a, ProofOf(method_, created, signer(Message(h, Options(method_, created), Secured(a).value)))))
  }

  /** verify; the public key is a predicate on signatures and messages. */
  predicate KitVerify(h: Hash, a: Json, key: (Data, Data) -> bool) {
    var sig := Prop(a, SIGNATURE);
    var proof := if Truthy(sig) then Prop(sig, PROOF) else sig;
    && Truthy(proof) && WellShaped(proof) && Secured(a).Some?
    && var signature := Base58.Decoded(Prop(proof, VALUE).s[1..]);
    signature.Some? && key(signature.value, Message(h, Rebuilt(proof), Secured(a).value))
  }

  /** A proof of the one kind that is verified, with its signature spelled out after the z. */
  predicate Attests(p: Json, text: JsString) {
    && Prop(p, Lit("type")) == Str(Lit("DataIntegrityProof"))
    && Prop(p, Lit("cryptosuite")) == Str(Lit("eddsa-jcs-2022"))
    && Prop(p, Lit("proofPurpose")) == Str(Lit("assertionMethod"))
    && Prop(p, Lit("proofValue")) == Str(Lit("z") + text)
  }

  /** Every other proof is refused before its signature is decoded. */
  lemma ShapeExactly(p: Json)
    ensures WellShaped(p) ==> Attests(p, Prop(p, VALUE).s[1..])
    ensures forall text :: Attests(p, text) ==> Truthy(p) && WellShaped(p) && Prop(p, VALUE).s[1..] == text
  {
    hide Prop, Truthy;
    assert Lit("z") == [Z];
    if WellShaped(p) { assert Prop(p, VALUE).s == [Z] + Prop(p, VALUE).s[1..]; }
    forall text | Attests(p, text) ensures Truthy(p) && WellShaped(p) && Prop(p, VALUE).s[1..] == text {
      TypedIsTruthy(p);
      assert ([Z] + text)[1..] == text;
    }
  }

  lemma TypedIsTruthy(p: Json)
    ensures !Prop(p, TYPE).Undefined? ==> Truthy(p)
  {
  }

  /** The bytes that are verified: the digest of the options, then the digest of the document. */
  lemma MessageBytes(h: Hash, p: Json, doc: Json)
    requires doc.Obj?
    ensures Message(h, Rebuilt(p), doc) ==
      var options := Obj([Member(Lit("type"), Str(Lit("DataIntegrityProof"))),
                          Member(Lit("cryptosuite"), Str(Lit("eddsa-jcs-2022"))),
                          Member(Lit("verificationMethod"), Prop(p, Lit("verificationMethod"))),
                          Member(Lit("proofPurpose"), Str(Lit("assertionMethod"))),
                          Member(Lit("created"), Prop(p, Lit("created")))]);
      h.Of(TextEncode(Stringify(options).value)) + h.Of(TextEncode(Stringify(doc).value))
  {
    hide Prop, Lit, Normal, Emit, TextEncode;
  }

  /** The kit accepts a signature exactly when its proof has that shape and the key accepts the decoded signature
      over the rebuilt options and the artifact without the proof. */
  lemma KitAcceptsExactly(h: Hash, a: Json, key: (Data, Data) -> bool)
    ensures var p := Prop(Prop(a, Lit("audit_signature")), Lit("proof"));
      KitVerify(h, a, key) <==>
        Secured(a).Some? &&
        exists text ::
          Attests(p, text) && Base58.Decoded(text).Some? &&
          key(Base58.Decoded(text).value, Message(h, Rebuilt(p), Secured(a).value))
  {
    hide Lit, Secured, Base58.Decoded, Attests, Message, Rebuilt, Prop, Truthy;
    var p := Prop(Prop(a, SIGNATURE), PROOF);
    ShapeExactly(p);
    FalsySignature(Prop(a, SIGNATURE));
    if KitVerify(h, a, key) {
      assert Attests(p, Prop(p, VALUE).s[1..]);
    }
  }

  lemma FalsySignature(sig: Json)
    ensures !Truthy(sig) ==> !Truthy(Prop(sig, PROOF))
  {
  }

  /** What is left of an artifact without its proof: every other member, and every other member of
      audit_signature. The kit also drops an audit_signature with nothing left. */
  lemma SecuredKeeps(a: Json, name: JsString)
    requires Prop(a, Lit("audit_signature")).Obj?
    ensures Secured(a).Some? && SecuredRecord(a).Some?
    ensures name != Lit("audit_signature") ==>
      Prop(Secured(a).value, name) == Prop(SecuredRecord(a).value, name) == Prop(a, name)
    ensures var before := Prop(a, Lit("audit_signature"));
      var after := Prop(SecuredRecord(a).value, Lit("audit_signature"));
      && after.Obj?
      && Prop(after, name) == (if name == Lit("proof") then Undefined else Prop(before, name))
      && Prop(Secured(a).value, Lit("audit_signature")) == (if after.members == [] then Undefined else after)
  {
    hide Lit, Delete, Put, Lookup;
    var rest := Delete(Prop(a, SIGNATURE).members, PROOF);
    LookupDelete(Prop(a, SIGNATURE).members, PROOF, name);
    LookupPut(a.members, SIGNATURE, Obj(rest), name);
    LookupPut(a.members, SIGNATURE, Obj(rest), SIGNATURE);
    LookupDelete(a.members, SIGNATURE, name);
    LookupDelete(a.members, SIGNATURE, SIGNATURE);
  }

  lemma ProofParts(method_: Json, created: Json, signature: Data)
    ensures var proof := ProofOf(method_, created, signature);
      && WellShaped(proof) && Truthy(proof) && Rebuilt(proof) == Options(method_, created)
      && Prop(proof, VALUE) == Str([Z] + Base58.Encoded(signature))
  {
    hide Lit, Base58.Encoded;
    var ms := Options(method_, created).members;
    var last := Member(VALUE, Str([Z] + Base58.Encoded(signature)));
    var all := ms + [last];
    assert DistinctNames(all);
    LookupAt(all, 0);
    LookupAt(all, 1);
    LookupAt(all, 2);
    LookupAt(all, 3);
    LookupAt(all, 4);
    LookupAt(all, 5);
    assert all[5] == last;
  }

  /** Verifying a signed artifact asks the key about the signature it holds, over the options it was made with and
      the artifact without the proof. A signature of zero bytes only comes back two bytes longer. */
  lemma KitVerifySigned(h: Hash, ms: seq<Member>, method_: Json, created: Json, signature: Data,
                        key: (Data, Data) -> bool)
    requires DistinctNames(ms)
    ensures var signed := Signed(Obj(ms), ProofOf(method_, created, signature));
      Secured(signed).Some? &&
      (KitVerify(h, signed, key) <==>
       key(Base58.Returned(signature), Message(h, Options(method_, created), Secured(signed).value)))
  {
    hide Options, ProofOf, WellShaped, Rebuilt, Message, Stringify, Put, Delete, Base58.Encoded, Base58.Decoded;
    hide Base58.Returned, Secured, With;
    var proof := ProofOf(method_, created, signature);
    ProofParts(method_, created, signature);
    SecuredSigned(ms, proof);
    SignedProof(ms, proof);
    Base58.EncodedReturns(signature);
    assert ([Z] + Base58.Encoded(signature))[1..] == Base58.Encoded(signature);
  }

  /** Where the document is restored, verifying what was signed asks the key about the signature it made over the
      message it signed. */
  lemma KitRoundTrip(h: Hash, ms: seq<Member>, method_: Json, created: Json, signer: Data -> Data,
                     key: (Data, Data) -> bool)
    requires Js(Obj(ms))
    requires var sig := Lookup(ms, SIGNATURE);
      sig.Undefined? || sig == Arr([]) || (sig.Obj? && Assignable(sig.members))
    ensures Secured(Obj(ms)).Some? && KitSign(h, Obj(ms), method_, created, signer).Some?
    ensures var message := Message(h, Options(method_, created), Secured(Obj(ms)).value);
      var signature := Base58.Returned(signer(message));
      (KitVerify(h, KitSign(h, Obj(ms), method_, created, signer).value, key) <==> key(signature, message))
  {
    hide Options, ProofOf, KitVerify, Message, Stringify, Put, Delete, Base58.Returned, Secured, With, Assignable;
    SecuredDefined(ms);
    var message := Message(h, Options(method_, created), Secured(Obj(ms)).value);
    var signature := signer(message);
    var proof := ProofOf(method_, created, signature);
    KitRestores(ms, proof);
    SecuredSigned(ms, proof);
    SameMessage(h, Options(method_, created), Secured(Signed(Obj(ms), proof)).value, Secured(Obj(ms)).value);
    KitVerifySigned(h, ms, method_, created, signature, key);
  }

  lemma KitSignIs(h: Hash, a: Json, method_: Json, created: Json, signer: Data -> Data)
    requires a.Obj? && Secured(a).Some?
    ensures KitSign(h, a, method_, created, signer) ==
      Some(Signed(a, ProofOf(method_, created, signer(Message(h, Options(method_, created), Secured(a).value)))))
  {
  }

  lemma SecuredDefined(ms: seq<Member>)
    requires Lookup(ms, SIGNATURE).Undefined? || Lookup(ms, SIGNATURE).Obj? || Lookup(ms, SIGNATURE) == Arr([])
    ensures Secured(Obj(ms)).Some? && Secured(Obj(ms)).value.Obj?
  {
  }

  lemma SameMessage(h: Hash, options: Json, v: Json, w: Json)
    requires v.Obj? && w.Obj? && TextOf(Some(v)) == TextOf(Some(w))
    ensures Message(h, options, v) == Message(h, options, w)
  {
  }

  lemma SignedProof(ms: seq<Member>, proof: Json)
    ensures Truthy(Prop(Signed(Obj(ms), proof), SIGNATURE))
    ensures Prop(Prop(Signed(Obj(ms), proof), SIGNATURE), PROOF) == proof
  {
    hide Put;
    var base := Base(Lookup(ms, SIGNATURE));
    LookupPut(ms, SIGNATURE, Obj(Put(base, PROOF, proof)), SIGNATURE);
    LookupPut(base, PROOF, proof, PROOF);
  }

  /** What signing changes: audit_signature.proof alone, beside the loss of audit_signature.__proto__. */
  lemma SignedKeeps(ms: seq<Member>, proof: Json, name: JsString)
    requires Lookup(ms, Lit("audit_signature")).Obj? || Lookup(ms, Lit("audit_signature")).Undefined?
    ensures var signed := Signed(Obj(ms), proof); var sig := Prop(Obj(ms), Lit("audit_signature"));
      && (name != Lit("audit_signature") ==> Prop(signed, name) == Lookup(ms, name))
      && Prop(signed, Lit("audit_signature")).Obj?
      && Prop(Prop(signed, Lit("audit_signature")), name) ==
           (if name == Lit("proof") then proof else if name == Lit("__proto__") then Undefined else Prop(sig, name))
  {
    hide Lit, Put, Lookup, Delete;
    var sig := Lookup(ms, SIGNATURE);
    var base := Base(sig);
    LookupPut(ms, SIGNATURE, Obj(Put(base, PROOF, proof)), name);
    LookupPut(ms, SIGNATURE, Obj(Put(base, PROOF, proof)), SIGNATURE);
    LookupPut(base, PROOF, proof, name);
    if sig.Obj? { LookupDelete(sig.members, PROTO, name); } else { LookupNothing(name); }
  }

  lemma LookupNothing(name: JsString)
    ensures Lookup([], name) == Undefined
  {
  }

  /** The 64 bytes fix the options and the document, or the returned byte strings collide. */
  lemma MessageBinding(h: Hash, options: Json, doc: Json, options': Json, doc': Json) returns (a: Data, b: Data)
    requires Js(options) && Js(doc) && Js(options') && Js(doc')
    requires !options.Undefined? && !doc.Undefined? && !options'.Undefined? && !doc'.Undefined?
    requires Message(h, options, doc) == Message(h, options', doc')
    ensures (Same(options, options') && Same(doc, doc')) || Collision(h, a, b)
  {
    hide Same, Stringify, TextEncode;
    SplitConcat(h.Of(DocBytes(options)), h.Of(DocBytes(doc)), h.Of(DocBytes(options')), h.Of(DocBytes(doc')));
    BytesDecide(options, options');
    BytesDecide(doc, doc');
    a, b := DocBytes(options), DocBytes(options');
    if a == b { a, b := DocBytes(doc), DocBytes(doc'); }
  }
}
