/** The record signer: it hashes the legacy text, while the kit and the badge verify canonical text. When the 64
    bytes that are verified are the 64 bytes that were signed, exactly. */
module Records {
  import opened Bytes
  import opened Text
  import opened Json
  import opened JsonEquality
  import opened Objects
  import opened Signing
  import opened Legacy
  import Base58

  // ---------------------------------------------------------------------------------------------
  // What is signed

  function RecordBytes(v: Json): Data {
    if v.Undefined? then [] else TextEncode(LegacyText(v).value)
  }

  /** hashData of the record signer. */
  function RecordMessage(h: Hash, options: Json, doc: Json): (m: Data)
    ensures |m| == 64
  {
    h.Of(RecordBytes(options)) + h.Of(RecordBytes(doc))
  }

  /** signRecord; the private key is a function from messages to signatures. */
  function RecordSign(h: Hash, a: Json, method_: Json, created: Json, signer: Data -> Data): Option<Json>
    requires a.Obj?
  {
    if SecuredRecord(a).None? then None else
      var message := RecordMessage(h, Options(method_, created), SecuredRecord(a).value);
      Some(Signed(a, ProofOf(method_, created, signer(message))))
  }

  // ---------------------------------------------------------------------------------------------
  // What is verified

  /** What signing leaves under audit_signature beside the proof. */
  function Left(ms: seq<Member>): seq<Member> { Delete(Base(Lookup(ms, SIGNATURE)), PROOF) }

  /** The document the kit verifies on a signed record, and the document the badge verifies. */
  function KitDocument(ms: seq<Member>): Json { Obj(With(ms, if Left(ms) == [] then None else Some(Obj(Left(ms))))) }

  function BadgeDocument(ms: seq<Member>): Json { Obj(With(ms, Some(Obj(Left(ms))))) }

  lemma DocumentsVerified(ms: seq<Member>, proof: Json)
    requires DistinctNames(ms)
    ensures Secured(Signed(Obj(ms), proof)) == Some(KitDocument(ms))
    ensures SecuredRecord(Signed(Obj(ms), proof)) == Some(BadgeDocument(ms))
  {
    hide Delete, Put, Lookup, With, Secured, SecuredRecord, Signed;
    SecuredSigned(ms, proof);
  }

  lemma DocumentsAreJs(ms: seq<Member>)
    requires Js(Obj(ms))
    ensures Lookup(ms, SIGNATURE).Undefined? || Lookup(ms, SIGNATURE).Obj? ==>
      Js(KitDocument(ms)) && Js(BadgeDocument(ms))
  {
    hide Js, Delete, Put;
    var sig := Lookup(ms, SIGNATURE);
    PropIsJs(Obj(ms), SIGNATURE);
    EmptyIsJs();
    DeleteNothing(PROOF);
    if sig.Obj? {
      DeleteJs(sig.members, PROTO);
      DeleteJs(Delete(sig.members, PROTO), PROOF);
    }
    if sig.Undefined? || sig.Obj? {
      PutJs(ms, SIGNATURE, Obj(Left(ms)));
      DeleteJs(ms, SIGNATURE);
    }
  }

  lemma EmptyIsJs()
    ensures Js(Obj([]))
  {
  }

  // ---------------------------------------------------------------------------------------------
  // Legacy text and the members that do not show in it

  lemma {:induction false} LegacyOfPut(ms: seq<Member>, name: JsString, v: Json, w: Json)
    requires Legacy.Legacy(v) == Legacy.Legacy(w) && !v.Undefined? && !w.Undefined?
    ensures LegacyMembers(Put(ms, name, v)) == LegacyMembers(Put(ms, name, w))
  {
    hide Legacy.Legacy;
    if ms != [] && ms[0].name != name { LegacyOfPut(ms[1..], name, v, w); }
  }

  lemma {:induction false} LegacyOfDelete(ms: seq<Member>, name: JsString)
    requires DistinctNames(ms) && (name == PROTO || Lookup(ms, name).Undefined?)
    ensures LegacyMembers(Delete(ms, name)) == LegacyMembers(ms)
  {
    hide Legacy.Legacy;
    if ms != [] {
      if ms[0].name == name {
        AbsentName(ms[1..], name);
        DeleteAbsent(ms[1..], name);
      } else {
        LegacyOfDelete(ms[1..], name);
      }
    }
  }

  lemma LegacyOfMembers(p: seq<Member>, q: seq<Member>)
    requires LegacyMembers(p) == LegacyMembers(q)
    ensures LegacyText(Obj(p)) == LegacyText(Obj(q))
  {
    hide Enumerate, Sort, Emit;
  }

  /** A legacy member is the legacy form of what its name looks up. */
  lemma LegacyLookup(ms: seq<Member>, m: Member)
    requires DistinctNames(ms)
    ensures m in LegacyMembers(ms) <==>
      m.name != PROTO && !Lookup(ms, m.name).Undefined? && m.value == Legacy.Legacy(Lookup(ms, m.name))
  {
    hide Legacy.Legacy;
    InLegacyMembers(ms, m);
    if m in LegacyMembers(ms) {
      var i: nat :| Live(ms, i) && ms[i].name == m.name != PROTO && m.value == Legacy.Legacy(ms[i].value);
      LookupAt(ms, i);
    }
    if !Lookup(ms, m.name).Undefined? && m.name != PROTO && m.value == Legacy.Legacy(Lookup(ms, m.name)) {
      var i := LookupFinds(ms, m.name);
      assert Live(ms, i);
    }
  }

  /** Losing __proto__ again does not show: the signer's rebuild loses it too. */
  lemma LegacyOfSignature(ms: seq<Member>)
    requires Js(Obj(ms)) && Lookup(ms, SIGNATURE).Obj?
    ensures LegacyText(SecuredRecord(Obj(ms)).value) == LegacyText(BadgeDocument(ms))
  {
    hide Delete, Put, Lookup, LegacyMembers, LegacyText;
    var sig := Lookup(ms, SIGNATURE);
    var v, w := Obj(Delete(sig.members, PROOF)), Obj(Left(ms));
    SignatureIsJs(ms);
    DeleteSwap(sig.members, PROTO, PROOF);
    DeleteDistinct(sig.members, PROOF);
    LegacyOfDelete(Delete(sig.members, PROOF), PROTO);
    ObjParts(v.members);
    ObjParts(w.members);
    LegacyOfPut(ms, SIGNATURE, v, w);
    LegacyOfMembers(Put(ms, SIGNATURE, v), Put(ms, SIGNATURE, w));
  }

  /** Objects that show different things under one name are printed differently. */
  lemma Differ(p: seq<Member>, q: seq<Member>, name: JsString)
    requires DistinctNames(p) && DistinctNames(q) && name != PROTO
    requires var v, w := Lookup(p, name), Lookup(q, name);
      v.Undefined? != w.Undefined? || (!v.Undefined? && Legacy.Legacy(v) != Normal(w))
    ensures LegacyText(Obj(p)) != Stringify(Obj(q))
  {
    hide Legacy.Legacy, Normal, LegacyMembers, NormalMembers, Sort, Enumerate, Stringify, LegacyText, Lookup;
    Legacy.TextsAgree(Obj(p), Obj(q));
    ObjParts(p);
    ObjParts(q);
    SortMembers(LegacyMembers(p));
    EnumerateMembers(Sort(LegacyMembers(p)));
    SortMembers(NormalMembers(q));
    var v, w := Lookup(p, name), Lookup(q, name);
    var m := Member(name, if v.Undefined? then Normal(w) else Legacy.Legacy(v));
    LegacyLookup(p, m);
    NormalLookup(q, m);
  }

  lemma SignatureShape(v: Json, ms: seq<Member>)
    ensures !v.Obj? ==> Legacy.Legacy(v) != Normal(Obj(ms))
  {
  }

  /** What the signed document shows under audit_signature. */
  lemma RecordShows(ms: seq<Member>)
    requires DistinctNames(ms) && SecuredRecord(Obj(ms)).Some?
    ensures var sig, y := Lookup(ms, SIGNATURE), SecuredRecord(Obj(ms)).value;
      y.Obj? && DistinctNames(y.members)
      && Lookup(y.members, SIGNATURE) == if sig.Obj? then Obj(Delete(sig.members, PROOF)) else sig
  {
    hide Put, Delete, Lookup;
    var sig := Lookup(ms, SIGNATURE);
    if sig.Obj? {
      PutDistinct(ms, SIGNATURE, Obj(Delete(sig.members, PROOF)));
      LookupPut(ms, SIGNATURE, Obj(Delete(sig.members, PROOF)), SIGNATURE);
    }
  }

  /** And the documents that are verified. */
  lemma DocumentsShow(ms: seq<Member>)
    requires DistinctNames(ms)
    ensures DistinctNames(KitDocument(ms).members) && DistinctNames(BadgeDocument(ms).members)
    ensures Lookup(KitDocument(ms).members, SIGNATURE) == if Left(ms) == [] then Undefined else Obj(Left(ms))
    ensures Lookup(BadgeDocument(ms).members, SIGNATURE) == Obj(Left(ms))
  {
    hide With, Left, Lookup;
    var w: Option<Json> := if Left(ms) == [] then None else Some(Obj(Left(ms)));
    WithDistinct(ms, w);
    WithLookup(ms, w, SIGNATURE);
    WithDistinct(ms, Some(Obj(Left(ms))));
    WithLookup(ms, Some(Obj(Left(ms))), SIGNATURE);
  }

  lemma SignatureName()
    ensures SIGNATURE != PROTO
  {
    assert |SIGNATURE| == 15 && |PROTO| == 9;
  }

  // ---------------------------------------------------------------------------------------------
  // When the document verified is the document signed

  /** Records whose signed document the kit can restore. */
  predicate KitSuits(sig: Json, left: seq<Member>) { sig.Undefined? || (sig.Obj? && left != []) }

  /** The kit verifies the text that signRecord signed exactly when audit_signature was absent, or an object with
      something beside a proof and __proto__, and nothing disturbs the legacy text of the document. */
  lemma KitRestoresRecord(ms: seq<Member>, proof: Json)
    requires Js(Obj(ms)) && SecuredRecord(Obj(ms)).Some?
    ensures TextOf(Secured(Signed(Obj(ms), proof))) == LegacyText(SecuredRecord(Obj(ms)).value) <==>
      KitSuits(Lookup(ms, SIGNATURE), Left(ms)) && Undisturbed(KitDocument(ms))
  {
    hide Delete, Put, Lookup, Left, LegacyMembers, Legacy.Legacy, Normal, LegacyText, Stringify, With, Js;
    hide Undisturbed, Secured, SecuredRecord, Signed, KitDocument, BadgeDocument;
    var sig := Lookup(ms, SIGNATURE);
    JsMembers(ms);
    DocumentsVerified(ms, proof);
    KitIsObject(ms);
    if KitSuits(sig, Left(ms)) {
      KitKeepsLegacy(ms);
      DocumentsAreJs(ms);
      LegacyIsCanonical(KitDocument(ms));
    } else {
      KitCases(ms);
    }
  }

  lemma KitCases(ms: seq<Member>)
    requires DistinctNames(ms) && SecuredRecord(Obj(ms)).Some? && !KitSuits(Lookup(ms, SIGNATURE), Left(ms))
    ensures LegacyText(SecuredRecord(Obj(ms)).value) != Stringify(KitDocument(ms))
  {
    hide Delete, Put, Lookup, Left, LegacyText, Stringify, With, SecuredRecord, KitDocument, Legacy.Legacy, Normal;
    var sig := Lookup(ms, SIGNATURE);
    RecordShows(ms);
    DocumentsShow(ms);
    SignatureName();
    SignatureShape(sig, Left(ms));
    KitIsObject(ms);
    Differ(SecuredRecord(Obj(ms)).value.members, KitDocument(ms).members, SIGNATURE);
  }

  lemma KitIsObject(ms: seq<Member>)
    ensures KitDocument(ms).Obj? && BadgeDocument(ms).Obj?
  {
  }

  lemma KitKeepsLegacy(ms: seq<Member>)
    requires Js(Obj(ms)) && KitSuits(Lookup(ms, SIGNATURE), Left(ms))
    ensures SecuredRecord(Obj(ms)).Some?
    ensures LegacyText(SecuredRecord(Obj(ms)).value) == LegacyText(KitDocument(ms))
  {
    hide Delete, Put, Lookup, LegacyMembers, LegacyText;
    if Lookup(ms, SIGNATURE).Undefined? {
      DeleteNothing(PROOF);
      LegacyOfDelete(ms, SIGNATURE);
      LegacyOfMembers(Delete(ms, SIGNATURE), ms);
    } else {
      LegacyOfSignature(ms);
    }
  }

  /** The badge verifies the text that signRecord signed exactly when audit_signature was an object and nothing
      disturbs the legacy text of the document. */
  lemma BadgeRestoresRecord(ms: seq<Member>, proof: Json)
    requires Js(Obj(ms)) && SecuredRecord(Obj(ms)).Some?
    ensures TextOf(SecuredRecord(Signed(Obj(ms), proof))) == LegacyText(SecuredRecord(Obj(ms)).value) <==>
      Lookup(ms, SIGNATURE).Obj? && Undisturbed(BadgeDocument(ms))
  {
    hide Delete, Put, Lookup, Left, LegacyMembers, Legacy.Legacy, Normal, LegacyText, Stringify, With, Js;
    hide Undisturbed, SecuredRecord, Signed, BadgeDocument;
    var sig := Lookup(ms, SIGNATURE);
    JsMembers(ms);
    DocumentsVerified(ms, proof);
    KitIsObject(ms);
    if sig.Obj? {
      LegacyOfSignature(ms);
      DocumentsAreJs(ms);
      LegacyIsCanonical(BadgeDocument(ms));
    } else {
      RecordShows(ms);
      DocumentsShow(ms);
      SignatureName();
      SignatureShape(sig, Left(ms));
      Differ(SecuredRecord(Obj(ms)).value.members, BadgeDocument(ms).members, SIGNATURE);
    }
  }

  // ---------------------------------------------------------------------------------------------
  // When the 64 bytes are the same

  /** The two messages agree exactly when both texts do, or the returned byte strings collide. */
  lemma MessagesAgree(h: Hash, options: Json, y: Json, x: Json) returns (a: Data, b: Data)
    requires options.Obj? && y.Obj? && x.Obj?
    ensures LegacyText(options) == Stringify(options) && LegacyText(y) == Stringify(x) ==>
      RecordMessage(h, options, y) == Message(h, options, x)
    ensures RecordMessage(h, options, y) == Message(h, options, x) ==>
      (LegacyText(options) == Stringify(options) && LegacyText(y) == Stringify(x)) || Collision(h, a, b)
  {
    hide Legacy.Legacy, Emit, Normal, TextEncode;
    a, b := RecordBytes(options), DocBytes(options);
    if RecordMessage(h, options, y) == Message(h, options, x) {
      SplitConcat(h.Of(RecordBytes(options)), h.Of(RecordBytes(y)), h.Of(DocBytes(options)), h.Of(DocBytes(x)));
      if a == b {
        BytesAgree(options, options);
        a, b := RecordBytes(y), DocBytes(x);
        if a == b { BytesAgree(y, x); }
      }
    }
  }

  lemma BytesAgree(y: Json, x: Json)
    requires y.Obj? && x.Obj? && RecordBytes(y) == DocBytes(x)
    ensures LegacyText(y) == Stringify(x)
  {
    hide Legacy.Legacy, Emit, Normal, TextEncode, WellFormed;
    EmitWellFormed(Legacy.Legacy(y));
    EmitWellFormed(Normal(x));
    TextEncodeInjective(LegacyText(y).value, Stringify(x).value);
  }

  lemma OptionsAreJs(method_: Json, created: Json)
    requires Js(method_) && Js(created)
    ensures Js(Options(method_, created)) && Options(method_, created).Obj?
  {
    hide Lit;
    var ms := Options(method_, created).members;
    assert ms[0].value.Str? && ms[1].value.Str? && ms[2].value == method_ && ms[3].value.Str? && ms[4].value == created;
  }

  /** The conditions on a record, and on the options it is signed with, under which the kit or the badge verifies
      the message that was signed. */
  ghost predicate KitVerifiesRecord(ms: seq<Member>, method_: Json, created: Json) {
    && KitSuits(Lookup(ms, SIGNATURE), Left(ms)) && Undisturbed(KitDocument(ms))
    && Undisturbed(Options(method_, created))
  }

  ghost predicate BadgeVerifiesRecord(ms: seq<Member>, method_: Json, created: Json) {
    && Lookup(ms, SIGNATURE).Obj? && Undisturbed(BadgeDocument(ms)) && Undisturbed(Options(method_, created))
  }

  /** The kit hashes the 64 bytes that signRecord signed exactly under its condition, or the returned byte strings
      collide. */
  lemma KitMessageOfRecord(h: Hash, ms: seq<Member>, method_: Json, created: Json, proof: Json)
    returns (a: Data, b: Data)
    requires Js(Obj(ms)) && Js(method_) && Js(created) && SecuredRecord(Obj(ms)).Some?
    ensures Secured(Signed(Obj(ms), proof)).Some?
    ensures var options := Options(method_, created);
      var signed := RecordMessage(h, options, SecuredRecord(Obj(ms)).value);
      var verified := Message(h, options, Secured(Signed(Obj(ms), proof)).value);
      && (KitVerifiesRecord(ms, method_, created) ==> signed == verified)
      && (signed == verified ==> KitVerifiesRecord(ms, method_, created) || Collision(h, a, b))
  {
    hide RecordMessage, Message, LegacyText, Stringify, Undisturbed, KitSuits, Lookup, Left, Options, Js, Delete;
    hide Secured, SecuredRecord, Signed, KitDocument, BadgeDocument;
    var options, y, x := Options(method_, created), SecuredRecord(Obj(ms)).value, KitDocument(ms);
    JsMembers(ms);
    OptionsAreJs(method_, created);
    LegacyIsCanonical(options);
    DocumentsVerified(ms, proof);
    KitRestoresRecord(ms, proof);
    RecordShows(ms);
    KitIsObject(ms);
    a, b := MessagesAgree(h, options, y, x);
  }

  /** And the badge exactly under its own. */
  lemma BadgeMessageOfRecord(h: Hash, ms: seq<Member>, method_: Json, created: Json, proof: Json)
    returns (a: Data, b: Data)
    requires Js(Obj(ms)) && Js(method_) && Js(created) && SecuredRecord(Obj(ms)).Some?
    ensures SecuredRecord(Signed(Obj(ms), proof)).Some?
    ensures var options := Options(method_, created);
      var signed := RecordMessage(h, options, SecuredRecord(Obj(ms)).value);
      var verified := Message(h, options, SecuredRecord(Signed(Obj(ms), proof)).value);
      && (BadgeVerifiesRecord(ms, method_, created) ==> signed == verified)
      && (signed == verified ==> BadgeVerifiesRecord(ms, method_, created) || Collision(h, a, b))
  {
    hide RecordMessage, Message, LegacyText, Stringify, Undisturbed, Lookup, Left, Options, Js, Delete;
    hide Secured, SecuredRecord, Signed, KitDocument, BadgeDocument;
    var options, y, x := Options(method_, created), SecuredRecord(Obj(ms)).value, BadgeDocument(ms);
    JsMembers(ms);
    OptionsAreJs(method_, created);
    LegacyIsCanonical(options);
    DocumentsVerified(ms, proof);
    BadgeRestoresRecord(ms, proof);
    RecordShows(ms);
    KitIsObject(ms);
    a, b := MessagesAgree(h, options, y, x);
  }

  lemma RecordSignIs(h: Hash, a: Json, method_: Json, created: Json, signer: Data -> Data)
    requires a.Obj? && SecuredRecord(a).Some?
    ensures var message := RecordMessage(h, Options(method_, created), SecuredRecord(a).value);
      RecordSign(h, a, method_, created, signer) == Some(Signed(a, ProofOf(method_, created, signer(message))))
  {
  }

  lemma SuitedFor(ms: seq<Member>, method_: Json, created: Json)
    ensures KitVerifiesRecord(ms, method_, created) || BadgeVerifiesRecord(ms, method_, created) ==>
      SecuredRecord(Obj(ms)).Some?
  {
    hide Undisturbed, Delete, Put, With;
  }

  /** Under that condition the kit, given what signRecord returned, asks the key about the signature it made over
      the message it signed. */
  lemma RecordRoundTrip(h: Hash, ms: seq<Member>, method_: Json, created: Json, signer: Data -> Data,
                        key: (Data, Data) -> bool)
    requires Js(Obj(ms)) && Js(method_) && Js(created) && KitVerifiesRecord(ms, method_, created)
    ensures SecuredRecord(Obj(ms)).Some? && RecordSign(h, Obj(ms), method_, created, signer).Some?
    ensures var message := RecordMessage(h, Options(method_, created), SecuredRecord(Obj(ms)).value);
      var signature := Base58.Returned(signer(message));
      (KitVerify(h, RecordSign(h, Obj(ms), method_, created, signer).value, key) <==> key(signature, message))
  {
    hide RecordMessage, Message, Undisturbed, Left, Options, Js, Delete, KitVerify, ProofOf, Base58.Returned;
    hide Secured, SecuredRecord, Signed, KitDocument, Lookup;
    SuitedFor(ms, method_, created);
    JsMembers(ms);
    var message := RecordMessage(h, Options(method_, created), SecuredRecord(Obj(ms)).value);
    var signature := signer(message);
    var a, b := KitMessageOfRecord(h, ms, method_, created, ProofOf(method_, created, signature));
    KitVerifySigned(h, ms, method_, created, signature, key);
  }

  /** {"10": null, "9": null, "audit_signature": {}}: the badge restores the document, but signRecord hashed another
      text of it. */
  lemma IndicesBreakRecords(proof: Json)
    ensures var a := Obj([Member([49, 48], Null), Member([57], Null), Member(SIGNATURE, Obj([]))]);
      && Js(a) && SecuredRecord(a).Some?
      && TextOf(SecuredRecord(Signed(a, proof))) == TextOf(SecuredRecord(a))
      && TextOf(SecuredRecord(Signed(a, proof))) != LegacyText(SecuredRecord(a).value)
  {
    hide Stringify, LegacyText, Lit, Undisturbed;
    var ms := [Member([49, 48], Null), Member([57], Null), Member(SIGNATURE, Obj([]))];
    assert |SIGNATURE| == 15;
    EmptyIsJs();
    assert Js(Obj(ms));
    LookupAt(ms, 2);
    assert Put(ms, SIGNATURE, Obj([])) == ms by { PutSame(ms, SIGNATURE); }
    DeleteNothing(PROOF);
    DeleteNothing(PROTO);
    DocumentsVerified(ms, proof);
    assert BadgeDocument(ms) == Obj(ms);
    NinesFollowTens(ms);
    BadgeRestoresRecord(ms, proof);
  }

  lemma NinesFollowTens(ms: seq<Member>)
    requires |ms| > 1 && ms[0] == Member([49, 48], Null) && ms[1] == Member([57], Null)
    ensures !Undisturbed(Obj(ms))
  {
    hide IsIndex, IndexValue;
    TenAndNine(ms[0].name, ms[1].name);
    assert Leq(ms[0].name, ms[1].name) && Live(ms, 0) && Live(ms, 1);
  }
}
