/** What a passed receipt says, in terms of the artifact, the hash and the keys alone: which members it has, which
    proofs were checked against which keys and bytes, and what each binding rebuilds. */
module Verdict {
  import opened Bytes
  import opened Text
  import opened Json
  import opened JsonEquality
  import opened Objects
  import opened Signing
  import opened Receipt
  import IJson
  import Merkle
  import Base58

  // ---------------------------------------------------------------------------------------------
  // Proofs

  /** A proof that was verified: of the one kind there is, with a did:key and a signature in base58, and accepted by
      that key over the options of the proof and the document. */
  ghost predicate Verified(env: Env, doc: Json, p: Json, key: Data, did: JsString, text: JsString) {
    && Attests(p, text) && Base58.Decoded(text).Some?
    && Prop(p, Lit("verificationMethod")) == Str(Lit("did:key:z") + did)
    && Base58.Decoded(did) == Some([0xED, 0x01] + key)
    && env.verify(key, Base58.Decoded(text).value, Message(env.h, Rebuilt(p), doc))
  }

  ghost predicate Accepted(env: Env, doc: Json, p: Json) {
    exists key, did, text :: Verified(env, doc, p, key, did, text)
  }

  /** The key of a verificationMethod is what stands in base58 after did:key:z, behind the Ed25519 prefix. */
  lemma DidKeyExactly(did: Json, key: Data)
    ensures DidKey(did) == Some(key) <==>
      did.Str? && Lit("did:key:z") <= did.s && Base58.Decoded(did.s[9..]) == Some([0xED, 0x01] + key)
  {
    hide Base58.Decoded, Lit;
    assert |Lit("did:key:z")| == 9;
    assert ([0xED, 0x01] + key)[2..] == key;
    if DidKey(did) == Some(key) {
      var d := Base58.Decoded(did.s[9..]).value;
      assert d == [0xED, 0x01] + d[2..];
    }
  }

  lemma PrefixSplit(prefix: JsString, rest: JsString, s: JsString)
    ensures s == prefix + rest <==> prefix <= s && s[|prefix|..] == rest
  {
  }

  lemma ProofExactly(env: Env, doc: Json, p: Json)
    ensures ProofValid(env, doc, p) <==> Accepted(env, doc, p)
  {
    hide *;
    if ProofValid(env, doc, p) { ProofParts(env, doc, p); }
    if Accepted(env, doc, p) { AcceptedParts(env, doc, p); }
  }

  lemma ProofParts(env: Env, doc: Json, p: Json)
    requires ProofValid(env, doc, p)
    ensures Accepted(env, doc, p)
  {
    hide Base58.Decoded, Lit, Prop, Truthy, DidKey, Attests, Message, Rebuilt;
    ShapeExactly(p);
    var key, text := DidKey(Prop(p, METHOD)).value, Prop(p, VALUE).s[1..];
    DidKeyExactly(Prop(p, METHOD), key);
    var did := Prop(p, METHOD).s[9..];
    PrefixSplit(Lit("did:key:z"), did, Prop(p, METHOD).s);
    assert Verified(env, doc, p, key, did, text);
  }

  lemma AcceptedParts(env: Env, doc: Json, p: Json)
    requires Accepted(env, doc, p)
    ensures ProofValid(env, doc, p)
  {
    hide Base58.Decoded, Lit, Prop, Truthy, DidKey, Attests, Message, Rebuilt;
    var key, did, text :| Verified(env, doc, p, key, did, text);
    ShapeExactly(p);
    DidKeyExactly(Prop(p, METHOD), key);
    PrefixSplit(Lit("did:key:z"), did, Prop(p, METHOD).s);
  }

  /** Every proof that an artifact carries, one or a list of them, is accepted over the artifact without its proof;
      audit_signature itself is absent, null, or true in a condition. */
  ghost predicate Endorsed(env: Env, a: Json) {
    var sig := Prop(a, Lit("audit_signature"));
    var raw := Prop(sig, Lit("proof"));
    && (sig.Undefined? || sig.Null? || Truthy(sig))
    && (raw.Arr? ==>
          forall i :: 0 <= i < |raw.items| ==>
            SecuredRecord(a).Some? && Accepted(env, SecuredRecord(a).value, raw.items[i]))
    && (!raw.Arr? && !raw.Null? && !raw.Undefined? ==>
          SecuredRecord(a).Some? && Accepted(env, SecuredRecord(a).value, raw))
  }

  lemma EndorsedExactly(env: Env, a: Json)
    ensures ProofsValid(env, a) <==> Endorsed(env, a)
  {
    hide ProofValid, SecuredRecord, Accepted, Lit, Prop, Truthy, Proofs;
    var sig := Prop(a, SIGNATURE);
    var raw := Prop(sig, PROOF);
    FalsyHolds(sig);
    ProofsAre(a);
    if Proofs(a) != [] {
      ProofsSecured(a);
      var doc := SecuredRecord(a).value;
      forall p ensures ProofValid(env, doc, p) <==> Accepted(env, doc, p) { ProofExactly(env, doc, p); }
      var first := Proofs(a)[0];
      if !Truthy(sig) { FalsyProof(env, doc, first); }
    }
  }

  /** The proofs of an artifact: the list, or the one value, or a false audit_signature itself. */
  lemma ProofsAre(a: Json)
    ensures var sig := Prop(a, SIGNATURE); var raw := Prop(sig, PROOF);
      Proofs(a) ==
        if !Truthy(sig) then (if sig.Undefined? || sig.Null? then [] else [sig])
        else if raw.Arr? then raw.items
        else if raw.Null? || raw.Undefined? then [] else [raw]
  {
    hide Lit, Lookup;
  }

  lemma FalsyHolds(sig: Json)
    ensures !Truthy(sig) ==> Prop(sig, PROOF).Undefined? && !sig.Arr?
    ensures sig.Null? || sig.Undefined? ==> !Truthy(sig)
  {
  }

  lemma FalsyProof(env: Env, doc: Json, p: Json)
    requires !Truthy(p)
    ensures !ProofValid(env, doc, p)
  {
  }

  // ---------------------------------------------------------------------------------------------
  // Bindings

  /** A binding of the payload digest: either it states the digest, or its inclusion, from the digest as the leaf,
      rebuilds the hash it states. */
  ghost predicate Holds(env: Env, b: Json, digest: Data) {
    var anchored, mi := OrEmpty(env, Prop(b, Lit("anchored_hash"))), Prop(b, Lit("merkle_inclusion"));
    && anchored.Some?
    && (!b.Null? && !b.Undefined?)
    && (!Truthy(mi) ==> Lower(Strip(anchored.value)) == Hex(digest))
    && (Truthy(mi) ==> exists root :: Included(env, mi, digest, root) && Lower(Strip(anchored.value)) == Hex(root))
  }

  ghost predicate Included(env: Env, mi: Json, digest: Data, root: Data) {
    var leaf, path := OrEmpty(env, Prop(mi, Lit("leaf"))), Prop(mi, Lit("path"));
    var index, size := Prop(mi, Lit("index")), Prop(mi, Lit("tree_size"));
    && Prop(mi, Lit("algorithm")) == Str(Lit("rfc6962"))
    && leaf.Some? && Lower(Strip(leaf.value)) == Hex(digest)
    && NonNegativeInteger(index) && NonNegativeInteger(size)
    && path.Arr? && PathBytes(env, path.items).Some?
    && Merkle.Root(env.h, env.h.Of([0] + digest), Whole(env, index.num), Whole(env, size.num),
                   PathBytes(env, path.items).value) == Some(root)
  }

  /** A path of digests is read as it is written: hex in any case, with or without the prefix. */
  lemma {:induction false} PathAsWritten(env: Env, items: seq<Json>, path: seq<Data>)
    requires |items| == |path|
    requires forall i :: 0 <= i < |items| ==> items[i].Str? && Lower(Strip(items[i].s)) == Hex(path[i])
    ensures PathBytes(env, items) == Some(path)
  {
    hide Hex, HexToBytes, Strip, Lower;
    if path != [] {
      PathAsWritten(env, items[1..], path[1..]);
      HexToBytesOfLower(Strip(items[0].s));
      HexToBytesIsUnhex(Hex(path[0]));
      UnhexOfHex(path[0]);
      assert path == [path[0]] + path[1..];
    }
  }

  /** A string is taken as it stands, and what is absent or null as the empty string. */
  lemma StringsAsTheyStand(env: Env, v: Json)
    ensures v.Str? ==> OrEmpty(env, v) == Some(v.s)
    ensures v.Undefined? || v.Null? ==> OrEmpty(env, v) == Some([])
  {
  }

  lemma MerkleExactly(env: Env, mi: Json, digest: Data, root: Data)
    requires |digest| == 32
    ensures VerifyMerkle(env, mi, Hex(digest)) == RootHex(Hex(root)) <==> Included(env, mi, digest, root)
  {
    hide OrEmpty, Lower, Strip, Lit, Prop, Whole, PathBytes, Merkle.Root, Hex, HexToBytes, NonNegativeInteger;
    LowerOfHex(Hex(digest));
    HexToBytesIsUnhex(Hex(digest));
    UnhexOfHex(digest);
    NamedIsObject(mi);
    ZeroSize(env, Prop(mi, SIZE));
    forall d | Hex(d) == Hex(root) ensures d == root { HexInjective(d, root); }
    LeafIs(env.h, digest);
  }

  lemma NamedIsObject(mi: Json)
    ensures !Prop(mi, ALGORITHM).Undefined? ==> IsObject(mi)
  {
  }

  /** No root is rebuilt in a tree of size 0. */
  lemma ZeroSize(env: Env, size: Json)
    ensures NonNegativeInteger(size) ==> size.Num?
    ensures NonNegativeInteger(size) && size.num.Zero? ==> Whole(env, size.num) == 0
    ensures forall leaf, index, path :: Merkle.Root(env.h, leaf, index, 0, path) == None
  {
  }

  lemma LeafIs(h: Hash, digest: Data)
    ensures Merkle.LeafHash(h, digest) == h.Of([0] + digest)
  {
  }

  lemma BindingExactly(env: Env, b: Json, digest: Data)
    requires |digest| == 32
    ensures CheckBinding(env, b, Hex(digest)) == Some(true) <==> Holds(env, b, digest)
  {
    hide OrEmpty, Lower, Strip, Lit, Prop, Hex, VerifyMerkle, Included, Truthy;
    var mi := Prop(b, INCLUSION);
    LowerOfHex(Hex(digest));
    HexNotEmpty(digest);
    if Truthy(mi) && VerifyMerkle(env, mi, Hex(digest)).RootHex? {
      var root := RootOf(env, mi, digest);
      LowerOfHex(Hex(root));
      MerkleExactly(env, mi, digest, root);
      OneRoot(env, mi, digest, root);
    } else if Truthy(mi) {
      forall root ensures !Included(env, mi, digest, root) { MerkleExactly(env, mi, digest, root); }
    }
  }

  lemma HexNotEmpty(d: Data)
    ensures d != [] ==> Hex(d) != []
  {
  }

  lemma RootOf(env: Env, mi: Json, digest: Data) returns (root: Data)
    requires VerifyMerkle(env, mi, Hex(digest)).RootHex?
    ensures VerifyMerkle(env, mi, Hex(digest)) == RootHex(Hex(root))
  {
    hide OrEmpty, Lower, Strip, Lit, Prop, Hex, Whole, Merkle.Root, PathBytes, Truthy, IJson.IsInteger;
    var leaf := Merkle.LeafHash(env.h, HexToBytes(Lower(Strip(OrEmpty(env, Prop(mi, LEAF)).value))));
    root := Merkle.Root(env.h, leaf, Whole(env, Prop(mi, INDEX).num), Whole(env, Prop(mi, SIZE).num),
                        PathBytes(env, Prop(mi, PATH).items).value).value;
  }

  lemma OneRoot(env: Env, mi: Json, digest: Data, root: Data)
    requires Included(env, mi, digest, root)
    ensures forall other :: Included(env, mi, digest, other) ==> other == root
  {
  }

  // ---------------------------------------------------------------------------------------------
  // The verdict

  /** A receipt passes exactly when it has a policy, an output and the hash of the two, every proof it carries is
      accepted, and every binding it carries holds. */
  lemma PassesExactly(env: Env, a: Json)
    ensures var policy, output := Prop(a, Lit("policy_parameters")), Prop(a, Lit("output_payload"));
      var stated, bindings := Prop(a, Lit("execution_hash")), Prop(a, Lit("anchor_bindings"));
      var payload := Obj([Member(Lit("policy_parameters"), policy), Member(Lit("output_payload"), output)]);
      var digest := env.h.Of(TextEncode(Stringify(payload).value));
      Outcome(env, a) == Pass <==>
        && IsObject(policy) && IsObject(output) && IJson.NumbersOk(policy) && IJson.NumbersOk(output)
        && stated.Str? && Lower(Strip(stated.s)) == Hex(digest)
        && Endorsed(env, a)
        && (bindings.Arr? ==> forall i :: 0 <= i < |bindings.items| ==> Holds(env, bindings.items[i], digest))
  {
    hide Outcome, StructOk, Endorsed, Holds, Hex, Prop, Lit, CheckBinding, Recomputed, Lower, Strip, Bindings;
    hide ProofsValid, IJson.NumbersOk, Stringify, TextEncode;
    var digest := PayloadDigest(env.h, Prop(a, POLICY), Prop(a, OUTPUT));
    PassExactly(env, a);
    EndorsedExactly(env, a);
    StatedExactly(env, a);
    DigestBytes(env.h, Prop(a, POLICY), Prop(a, OUTPUT));
    BindingsAre(a);
    forall b ensures CheckBinding(env, b, Hex(digest)) == Some(true) <==> Holds(env, b, digest) {
      BindingExactly(env, b, digest);
    }
  }

  lemma BindingsAre(a: Json)
    ensures Bindings(a) == if Prop(a, BINDINGS).Arr? then Prop(a, BINDINGS).items else []
  {
  }

  lemma DigestBytes(h: Hash, policy: Json, output: Json)
    ensures PayloadDigest(h, policy, output) ==
      h.Of(TextEncode(Stringify(Obj([Member(POLICY, policy), Member(OUTPUT, output)])).value))
  {
    hide Normal, Emit, TextEncode, Lit;
  }

  lemma StatedExactly(env: Env, a: Json)
    ensures var policy, output := Prop(a, POLICY), Prop(a, OUTPUT); var stated := Prop(a, EXECUTION);
      StructOk(a) && Recomputed(env, a) == Some(StatedHash(a)) <==>
        && IsObject(policy) && IsObject(output) && IJson.NumbersOk(policy) && IJson.NumbersOk(output)
        && stated.Str? && Lower(Strip(stated.s)) == Hex(PayloadDigest(env.h, policy, output))
  {
    hide Prop, Lit, Hex, PayloadDigest, Strip;
    var policy, output := Prop(a, POLICY), Prop(a, OUTPUT);
    HexNotEmpty(PayloadDigest(env.h, policy, output));
    NumbersInside(policy, output);
    NothingStated();
  }

  lemma NumbersInside(policy: Json, output: Json)
    ensures IJson.NumbersOk(Preimage(policy, output)) <==> IJson.NumbersOk(policy) && IJson.NumbersOk(output)
  {
    var ms := Preimage(policy, output).members;
    assert ms[0].value == policy && ms[1].value == output;
  }

  lemma NothingStated()
    ensures Lower(Strip([])) == []
  {
  }

  /** The first failure in the order of the checks decides: a binding is named only when everything before it
      holds. */
  lemma FailsAtExactly(env: Env, a: Json, i: nat)
    ensures Outcome(env, a) == Fail(Anchor(i)) <==>
      && StructOk(a) && Recomputed(env, a) == Some(StatedHash(a)) && Endorsed(env, a)
      && i < |Bindings(a)| && CheckBinding(env, Bindings(a)[i], StatedHash(a)) == Some(false)
      && forall k :: 0 <= k < i ==> CheckBinding(env, Bindings(a)[k], StatedHash(a)) == Some(true)
  {
    hide StructOk, ProofsValid, CheckBinding, CheckBindings, Bindings, Recomputed, Lower, Endorsed;
    EndorsedExactly(env, a);
    if StructOk(a) && Recomputed(env, a).Some? {
      RecomputedIsLower(env, a);
      FirstFailure(env, Bindings(a), 0, Recomputed(env, a).value, i);
    }
  }

  lemma {:induction false} FirstFailure(env: Env, bindings: seq<Json>, from: nat, exec: JsString, i: nat)
    requires from <= |bindings|
    ensures CheckBindings(env, bindings, from, exec) == Fail(Anchor(i)) <==>
      && from <= i < |bindings| && CheckBinding(env, bindings[i], exec) == Some(false)
      && forall k :: from <= k < i ==> CheckBinding(env, bindings[k], exec) == Some(true)
    decreases |bindings| - from
  {
    hide CheckBinding;
    if from < |bindings| { FirstFailure(env, bindings, from + 1, exec, i); }
  }
}
