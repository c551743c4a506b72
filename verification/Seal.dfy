/** The seal check up to the pairing: the public inputs of a receipt, the point they select, the binding of the
    receipt to an artifact, and what equal public inputs fix. */
module Seal {
  import opened Bytes
  import opened Text
  import opened Json
  import opened JsonEquality
  import opened Objects
  import opened Signing
  import Claim
  import Wnaf

  const FORMAT := Lit("receiptFormat")
  const IMAGE := Lit("imageId")
  const SEAL := Lit("seal")
  const JOURNAL := Lit("journal")
  const STARK := Str(Lit("stark"))
  const GROTH16 := Str(Lit("groth16-bn254"))

  /** The two published digests of the proof system: the control root and the BN254 control id. */
  datatype Parameters = Parameters(control: Data, id: Data)

  predicate Sized(p: Parameters) { |p.control| == 32 && |p.id| == 32 }

  /** The exception for the delegated format, a plain false, or the exception on an image id without hex. */
  datatype Refusal = Delegated | Refused | Thrown

  /** Steps 1 to 3: the five public inputs. */
  function PublicInputs(h: Hash, p: Parameters, receipt: Json): (r: Result<seq<nat>, Refusal>)
    requires Sized(p)
    ensures r.Ok? ==> |r.value| == 5
  {
    if !IsObject(receipt) then Err(Refused)
    else if Prop(receipt, FORMAT) == STARK then Err(Delegated)
    else if Prop(receipt, FORMAT) != GROTH16 then Err(Refused)
    else if !Prop(receipt, IMAGE).Str? || !Prop(receipt, SEAL).Str? then Err(Refused)
    else if !IsObject(Prop(receipt, JOURNAL)) then Err(Refused)
    else
      var image := ImageBytes(receipt);
      if image == [] then Err(Thrown)
      else if |image| != 32 then Err(Refused)
      else
        var digest := Claim.ClaimDigestOk(h, image, DocBytes(Prop(receipt, JOURNAL)));
        var (a0, a1) := Claim.SplitDigest(p.control);
        var (c0, c1) := Claim.SplitDigest(digest);
        Ok([a0, a1, c0, c1, Claim.IntLE(p.id)])
  }

  /** normId, its prefix cut off again, as bytes. */
  function ImageBytes(receipt: Json): Data {
    var id := Prop(receipt, IMAGE);
    if id.Str? then HexPairs(Strip(id.s)) else []
  }

  /** Each public input lies below 2^128 but the last, which is a constant. */
  lemma InputsBounded(h: Hash, p: Parameters, receipt: Json)
    requires Sized(p) && PublicInputs(h, p, receipt).Ok?
    ensures forall i :: 0 <= i < 4 ==>
      PublicInputs(h, p, receipt).value[i] < 0x1_0000_0000_0000_0000_0000_0000_0000_0000
  {
    hide Claim.SplitDigest, Claim.ClaimDigestOk, Claim.Pow256, DocBytes, HexPairs, Strip;
    Claim.TwoTo128();
    Claim.SplitDigestValue(p.control);
    Claim.SplitDigestValue(Claim.ClaimDigestOk(h, ImageBytes(receipt), DocBytes(Prop(receipt, JOURNAL))));
  }

  /** Which number stands at which place: the low and the high half of the control root, the low and the high half
      of the claim digest, and the control id. The claim digest is written out down to the bytes that are hashed. */
  lemma InputsAre(h: Hash, p: Parameters, receipt: Json)
    requires Sized(p) && PublicInputs(h, p, receipt).Ok?
    ensures var v := PublicInputs(h, p, receipt).value;
      var image := HexPairs(Strip(Prop(receipt, Lit("imageId")).s));
      var journal := TextEncode(Stringify(Prop(receipt, Lit("journal"))).value);
      var zeros: Data := seq(32, i => 0);
      var post := h.Of(h.Of(Claim.STATE_TAG) + zeros + [0, 0, 0, 0] + [1, 0]);
      var output := h.Of(h.Of(Claim.OUTPUT_TAG) + h.Of(journal) + zeros + [2, 0]);
      var claim := h.Of(h.Of(Claim.CLAIM_TAG) + zeros + image + post + output + [0, 0, 0, 0, 0, 0, 0, 0] + [4, 0]);
      var half := 0x1_0000_0000_0000_0000_0000_0000_0000_0000;
      && v[0] < half && v[1] < half && v[0] + half * v[1] == Claim.IntLE(p.control)
      && v[2] < half && v[3] < half && v[2] + half * v[3] == Claim.IntLE(claim)
      && v[4] == Claim.IntLE(p.id)
  {
    hide PublicInputs, Claim.SplitDigest, Claim.ClaimDigestOk, Claim.Pow256, Claim.IntLE, Stringify, TextEncode;
    hide HexPairs, Strip, Prop, Lit;
    InputsUnfold(h, p, receipt);
    var image, journal := HexPairs(Strip(Prop(receipt, IMAGE).s)), DocBytes(Prop(receipt, JOURNAL));
    Claim.ClaimDigestBytes(h, image, journal);
    Claim.TwoTo128();
    Claim.SplitDigestValue(p.control);
    Claim.SplitDigestValue(Claim.ClaimDigestOk(h, image, journal));
  }

  lemma InputsUnfold(h: Hash, p: Parameters, receipt: Json)
    requires Sized(p) && PublicInputs(h, p, receipt).Ok?
    ensures Prop(receipt, IMAGE).Str? && Prop(receipt, SEAL).Str? && IsObject(Prop(receipt, JOURNAL))
    ensures Prop(receipt, FORMAT) == GROTH16 && |HexPairs(Strip(Prop(receipt, IMAGE).s))| == 32
    ensures var v := PublicInputs(h, p, receipt).value;
      var image, journal := HexPairs(Strip(Prop(receipt, IMAGE).s)), DocBytes(Prop(receipt, JOURNAL));
      && (v[0], v[1]) == Claim.SplitDigest(p.control)
      && (v[2], v[3]) == Claim.SplitDigest(Claim.ClaimDigestOk(h, image, journal))
      && v[4] == Claim.IntLE(p.id)
  {
    hide Claim.SplitDigest, Claim.ClaimDigestOk, DocBytes, HexPairs, Strip;
  }

  /** When there are inputs, and what happens otherwise. */
  lemma InputsExactly(h: Hash, p: Parameters, receipt: Json)
    requires Sized(p)
    ensures var r := PublicInputs(h, p, receipt); var image := Prop(receipt, Lit("imageId"));
      var shaped := Prop(receipt, Lit("receiptFormat")) == Str(Lit("groth16-bn254")) && image.Str?
        && Prop(receipt, Lit("seal")).Str? && IsObject(Prop(receipt, Lit("journal")));
      && (r == Err(Delegated) <==> Prop(receipt, Lit("receiptFormat")) == Str(Lit("stark")))
      && (r == Err(Thrown) <==> shaped && HexPairs(Strip(image.s)) == [])
      && (r.Ok? <==> shaped && |HexPairs(Strip(image.s))| == 32)
  {
    hide Claim.SplitDigest, Claim.ClaimDigestOk, DocBytes, HexPairs, Strip, Lit;
    FormatsDiffer();
  }

  lemma FormatsDiffer()
    ensures STARK != GROTH16
  {
    assert |STARK.s| == 5 && |GROTH16.s| == 13;
  }

  lemma InputsFixDigest(h: Hash, p: Parameters, receipt: Json, receipt': Json)
    requires Sized(p) && PublicInputs(h, p, receipt).Ok? && PublicInputs(h, p, receipt) == PublicInputs(h, p, receipt')
    ensures Claim.ClaimDigestOk(h, ImageBytes(receipt), DocBytes(Prop(receipt, JOURNAL)))
      == Claim.ClaimDigestOk(h, ImageBytes(receipt'), DocBytes(Prop(receipt', JOURNAL)))
    ensures |ImageBytes(receipt)| == |ImageBytes(receipt')| == 32
    ensures IsObject(Prop(receipt, JOURNAL)) && IsObject(Prop(receipt', JOURNAL))
  {
    hide Claim.SplitDigest, Claim.ClaimDigestOk, DocBytes, HexPairs, Strip;
    var d := Claim.ClaimDigestOk(h, ImageBytes(receipt), DocBytes(Prop(receipt, JOURNAL)));
    var d' := Claim.ClaimDigestOk(h, ImageBytes(receipt'), DocBytes(Prop(receipt', JOURNAL)));
    var v, w := PublicInputs(h, p, receipt).value, PublicInputs(h, p, receipt').value;
    assert v[2] == w[2] && v[3] == w[3];
    assert Claim.SplitDigest(d) == (v[2], v[3]) && Claim.SplitDigest(d') == (w[2], w[3]);
    Claim.SplitDigestInjective(d, d');
  }

  /** The public inputs fix the claim: receipts with the same five have the same image id bytes and the same
      journal, or the returned byte strings collide. */
  lemma InputsFixClaim(h: Hash, p: Parameters, receipt: Json, receipt': Json) returns (a: Data, b: Data)
    requires Sized(p) && Js(receipt) && Js(receipt')
    requires PublicInputs(h, p, receipt).Ok? && PublicInputs(h, p, receipt) == PublicInputs(h, p, receipt')
    ensures Collision(h, a, b) ||
      (ImageBytes(receipt) == ImageBytes(receipt') && Same(Prop(receipt, JOURNAL), Prop(receipt', JOURNAL)))
  {
    hide PublicInputs, Claim.ClaimDigestOk, Stringify, TextEncode, Same, Js, ImageBytes, Prop;
    InputsFixDigest(h, p, receipt, receipt');
    var j, j' := Prop(receipt, JOURNAL), Prop(receipt', JOURNAL);
    a, b := Claim.ClaimBinding(h, ImageBytes(receipt), DocBytes(j), ImageBytes(receipt'), DocBytes(j'));
    PropIsJs(receipt, JOURNAL);
    PropIsJs(receipt', JOURNAL);
    BytesDecide(j, j');
  }

  /** And the image id itself up to the case of its hex: ids of 64 hex digits give the same bytes exactly when they
      are the same without the prefix and in lower case. */
  lemma ImageIdFixed(receipt: Json, receipt': Json)
    requires Prop(receipt, IMAGE).Str? && Prop(receipt', IMAGE).Str?
    requires var s := Strip(Prop(receipt, IMAGE).s); |s| == 64 && IsAnyHex(s)
    requires var s := Strip(Prop(receipt', IMAGE).s); |s| == 64 && IsAnyHex(s)
    ensures ImageBytes(receipt) == ImageBytes(receipt') <==>
      Lower(Strip(Prop(receipt, IMAGE).s)) == Lower(Strip(Prop(receipt', IMAGE).s))
  {
    hide Strip, Lower, IsAnyHex, HexPairs;
    HexPairsDecide(Strip(Prop(receipt, IMAGE).s), Strip(Prop(receipt', IMAGE).s));
  }

  // ---------------------------------------------------------------------------------------------
  // The point the inputs select

  /** IC[0] + sum of input i times IC[i + 1], over the first k inputs. */
  function Combination<P>(g: Wnaf.Group<P>, ic: seq<P>, inputs: seq<nat>, k: nat): P
    requires k <= |inputs| && |ic| == |inputs| + 1
  {
    if k == 0 then ic[0]
    else g.add(Combination(g, ic, inputs, k - 1), Wnaf.Times(g, inputs[k - 1], ic[k]))
  }

  /** vk_x. Scalar multiplication refuses zero and anything from the group order on. */
  method Select<P(!new)>(g: Wnaf.Group<P>, ic: seq<P>, inputs: seq<nat>, w: nat, bits: nat, order: nat)
    returns (r: Option<P>)
    requires Wnaf.Abelian(g) && 1 <= w <= bits && order <= Pow2(bits) && |ic| == |inputs| + 1
    ensures r.Some? <==> forall i :: 0 <= i < |inputs| ==> 0 < inputs[i] < order
    ensures r.Some? ==> r.value == Combination(g, ic, inputs, |inputs|)
  {
    hide Wnaf.Abelian, Wnaf.Times;
    var x := ic[0];
    for i := 0 to |inputs|
      invariant forall k :: 0 <= k < i ==> 0 < inputs[k] < order
      invariant x == Combination(g, ic, inputs, i)
    {
      if inputs[i] == 0 { return None; }
      var product := Wnaf.Cached(g, g.zero, ic[i + 1], w, bits, order, inputs[i]);
      if product.None? { return None; }
      x := g.add(x, product.value.0);
    }
    r := Some(x);
  }

  // ---------------------------------------------------------------------------------------------
  // The seal

  /** The eight big-endian elements of a seal; each coordinate of B is written with its second half first. */
  datatype Points = Points(ax: nat, ay: nat, bx0: nat, bx1: nat, by0: nat, by1: nat, cx: nat, cy: nat)

  function ParseSeal(s: Data): Points
    requires |s| == 256
  {
    Points(Element(s, 0), Element(s, 1), Element(s, 3), Element(s, 2), Element(s, 5), Element(s, 4), Element(s, 6),
           Element(s, 7))
  }

  function Element(s: Data, i: nat): nat
    requires |s| == 256 && i < 8
  {
    Claim.IntBE(s[32 * i..32 * i + 32])
  }

  lemma ElementFixes(s: Data, t: Data, i: nat)
    requires |s| == |t| == 256 && i < 8 && Element(s, i) == Element(t, i)
    ensures forall k :: 32 * i <= k < 32 * i + 32 ==> s[k] == t[k]
  {
    var p, q := s[32 * i..32 * i + 32], t[32 * i..32 * i + 32];
    Claim.IntBEInjective(p, q);
    forall k | 32 * i <= k < 32 * i + 32 ensures s[k] == t[k] {
      assert s[k] == p[k - 32 * i] && t[k] == q[k - 32 * i];
    }
  }

  /** No two seals spell the same elements. */
  lemma SealFixed(s: Data, t: Data)
    requires |s| == |t| == 256 && ParseSeal(s) == ParseSeal(t)
    ensures s == t
  {
    hide Element;
    forall i: nat | i < 8 ensures Element(s, i) == Element(t, i) { }
    forall k | 0 <= k < 256 ensures s[k] == t[k] { ElementFixes(s, t, k / 32); }
  }

  /** The elements stand in this order: A.x, A.y, B.x.c1, B.x.c0, B.y.c1, B.y.c0, C.x, C.y. */
  lemma ParseWritten(q: Points)
    requires q.ax < Claim.Pow256(32) && q.ay < Claim.Pow256(32) && q.cx < Claim.Pow256(32) && q.cy < Claim.Pow256(32)
    requires q.bx0 < Claim.Pow256(32) && q.bx1 < Claim.Pow256(32)
    requires q.by0 < Claim.Pow256(32) && q.by1 < Claim.Pow256(32)
    ensures ParseSeal(BigEndian(q.ax, 32) + BigEndian(q.ay, 32) + BigEndian(q.bx1, 32) + BigEndian(q.bx0, 32)
      + BigEndian(q.by1, 32) + BigEndian(q.by0, 32) + BigEndian(q.cx, 32) + BigEndian(q.cy, 32)) == q
  {
    hide BigEndian, Claim.Pow256, Claim.IntBE;
    Claim.BigEndianValue(q.ax, 32);
    Claim.BigEndianValue(q.ay, 32);
    Claim.BigEndianValue(q.bx1, 32);
    Claim.BigEndianValue(q.bx0, 32);
    Claim.BigEndianValue(q.by1, 32);
    Claim.BigEndianValue(q.by0, 32);
    Claim.BigEndianValue(q.cx, 32);
    Claim.BigEndianValue(q.cy, 32);
    var s := BigEndian(q.ax, 32) + BigEndian(q.ay, 32) + BigEndian(q.bx1, 32) + BigEndian(q.bx0, 32)
      + BigEndian(q.by1, 32) + BigEndian(q.by0, 32) + BigEndian(q.cx, 32) + BigEndian(q.cy, 32);
    assert s[0..32] == BigEndian(q.ax, 32) && s[32..64] == BigEndian(q.ay, 32);
    assert s[64..96] == BigEndian(q.bx1, 32) && s[96..128] == BigEndian(q.bx0, 32);
    assert s[128..160] == BigEndian(q.by1, 32) && s[160..192] == BigEndian(q.by0, 32);
    assert s[192..224] == BigEndian(q.cx, 32) && s[224..256] == BigEndian(q.cy, 32);
  }

  /** What verifySeal is given: base64, the group and verifying key of G1, and the check that the elements are
      points whose pairing equation holds with the selected point. */
  datatype Key<!P> = Key(g: Wnaf.Group<P>, ic: seq<P>, order: nat, atob: JsString -> Option<Data>,
                         check: (Points, P) -> bool)

  function SealVerdict<P>(h: Hash, p: Parameters, key: Key<P>, receipt: Json): Result<bool, Refusal>
    requires Sized(p) && |key.ic| == 6
  {
    match PublicInputs(h, p, receipt)
    case Err(Refused) => Ok(false)
    case Err(e) => Err(e)
    case Ok(inputs) =>
      var seal := key.atob(Prop(receipt, SEAL).s);
      Ok(seal.Some? && |seal.value| == 256
         && (forall i :: 0 <= i < 5 ==> 0 < inputs[i] < key.order)
         && key.check(ParseSeal(seal.value), Combination(key.g, key.ic, inputs, 5)))
  }

  method VerifySeal<P(!new)>(h: Hash, p: Parameters, key: Key<P>, w: nat, bits: nat, receipt: Json)
    returns (r: Result<bool, Refusal>)
    requires Sized(p) && |key.ic| == 6 && Wnaf.Abelian(key.g) && 1 <= w <= bits && key.order <= Pow2(bits)
    ensures r == SealVerdict(h, p, key, receipt)
  {
    hide Wnaf.Abelian, Wnaf.Times, PublicInputs, Combination;
    var inputs := PublicInputs(h, p, receipt);
    match inputs {
      case Err(Refused) => return Ok(false);
      case Err(e) => return Err(e);
      case Ok(pub) =>
        InputsHaveSeal(h, p, receipt);
        var seal := key.atob(Prop(receipt, SEAL).s);
        if seal.None? || |seal.value| != 256 { return Ok(false); }
        var x := Select(key.g, key.ic, pub, w, bits, key.order);
        if x.None? { return Ok(false); }
        return Ok(key.check(ParseSeal(seal.value), x.value));
    }
  }

  lemma InputsHaveSeal(h: Hash, p: Parameters, receipt: Json)
    requires Sized(p) && PublicInputs(h, p, receipt).Ok?
    ensures Prop(receipt, SEAL).Str?
  {
  }

  /** A seal is accepted exactly when it is 256 bytes, every input is a scalar that multiplication takes, and the
      check holds of its points with IC[0] + v[0] IC[1] + ... + v[4] IC[5]. */
  lemma AcceptedExactly<P>(h: Hash, p: Parameters, key: Key<P>, receipt: Json)
    requires Sized(p) && |key.ic| == 6
    ensures SealVerdict(h, p, key, receipt) == Ok(true) <==>
      && PublicInputs(h, p, receipt).Ok?
      && var v := PublicInputs(h, p, receipt).value; var seal := key.atob(Prop(receipt, Lit("seal")).s);
      && seal.Some? && |seal.value| == 256
      && 0 < v[0] < key.order && 0 < v[1] < key.order && 0 < v[2] < key.order && 0 < v[3] < key.order
      && 0 < v[4] < key.order
      && var (g, ic) := (key.g, key.ic);
      key.check(ParseSeal(seal.value),
                g.add(g.add(g.add(g.add(g.add(ic[0], Wnaf.Times(g, v[0], ic[1])), Wnaf.Times(g, v[1], ic[2])),
                                  Wnaf.Times(g, v[2], ic[3])), Wnaf.Times(g, v[3], ic[4])),
                      Wnaf.Times(g, v[4], ic[5])))
    ensures SealVerdict(h, p, key, receipt) != Err(Refused)
    ensures SealVerdict(h, p, key, receipt) == Err(Delegated) <==> PublicInputs(h, p, receipt) == Err(Delegated)
    ensures SealVerdict(h, p, key, receipt) == Err(Thrown) <==> PublicInputs(h, p, receipt) == Err(Thrown)
  {
    hide PublicInputs, ParseSeal, Wnaf.Times, Combination, Prop;
    if PublicInputs(h, p, receipt).Ok? {
      var v := PublicInputs(h, p, receipt).value;
      forall k: nat | k < 5
        ensures Combination(key.g, key.ic, v, k + 1) ==
          key.g.add(Combination(key.g, key.ic, v, k), Wnaf.Times(key.g, v[k], key.ic[k + 1]))
      { CombinationStep(key.g, key.ic, v, k); }
      CombinationStart(key.g, key.ic, v);
    }
  }

  lemma CombinationStep<P>(g: Wnaf.Group<P>, ic: seq<P>, v: seq<nat>, k: nat)
    requires k < |v| && |ic| == |v| + 1
    ensures Combination(g, ic, v, k + 1) == g.add(Combination(g, ic, v, k), Wnaf.Times(g, v[k], ic[k + 1]))
  {
  }

  lemma CombinationStart<P>(g: Wnaf.Group<P>, ic: seq<P>, v: seq<nat>)
    requires |ic| == |v| + 1
    ensures Combination(g, ic, v, 0) == ic[0]
  {
  }

  /** The verdict depends on the image id bytes, the value of the journal and the seal alone: not on member order,
      on an id prefix or on the case of its hex. */
  lemma VerdictOfClaim<P>(h: Hash, p: Parameters, key: Key<P>, receipt: Json, receipt': Json)
    requires Sized(p) && |key.ic| == 6 && Js(receipt) && Js(receipt')
    requires PublicInputs(h, p, receipt).Ok? && PublicInputs(h, p, receipt').Ok?
    requires ImageBytes(receipt) == ImageBytes(receipt') && Same(Prop(receipt, JOURNAL), Prop(receipt', JOURNAL))
    requires Prop(receipt, SEAL) == Prop(receipt', SEAL)
    ensures SealVerdict(h, p, key, receipt) == SealVerdict(h, p, key, receipt')
  {
    hide Claim.SplitDigest, Claim.ClaimDigestOk, Stringify, TextEncode, Same, Js, ImageBytes, Prop, Combination;
    PropIsJs(receipt, JOURNAL);
    PropIsJs(receipt', JOURNAL);
    BytesDecide(Prop(receipt, JOURNAL), Prop(receipt', JOURNAL));
  }

  // ---------------------------------------------------------------------------------------------
  // The binding of a receipt to an artifact

  const COMPUTE := Lit("compute_proof")
  const SYSTEM := Lit("system")
  const OUT := Lit("output")
  const DIGEST := Lit("kernel_digest")
  const PAYLOAD := Lit("output_payload")
  const ZKVM := Str(Lit("ZkVmReceipt"))

  predicate FullString(v: Json) { v.Str? && v.s != [] }

  predicate Has(v: Json, name: JsString) {
    v.Obj? && exists i :: 0 <= i < |v.members| && v.members[i].name == name
  }

  /** o ?? null. */
  function OrNull(v: Json): Json { if v.Undefined? then Null else v }

  /** normId: published identities are compared with the prefix. */
  function NormId(s: JsString): JsString {
    if Lit("sha256:") <= s then s else Lit("sha256:") + s
  }

  predicate Published(ids: seq<JsString>, s: JsString) {
    ids == [] || exists i :: 0 <= i < |ids| && NormId(ids[i]) == NormId(s)
  }

  function ComputeProof(artifact: Json): Json { Prop(Prop(artifact, SIGNATURE), COMPUTE) }

  predicate VerifyBinding(artifact: Json, imageIds: seq<JsString>, digests: seq<JsString>) {
    var cp := ComputeProof(artifact);
    var journal := Prop(cp, JOURNAL);
    && IsObject(cp) && Prop(cp, TYPE) == ZKVM && FullString(Prop(cp, SYSTEM))
    && (Prop(cp, FORMAT) == GROTH16 || Prop(cp, FORMAT) == STARK)
    && FullString(Prop(cp, IMAGE)) && FullString(Prop(cp, SEAL)) && IsObject(journal) && Has(journal, OUT)
    && Stringify(OrNull(Prop(journal, OUT))) == Stringify(OrNull(Prop(artifact, PAYLOAD)))
    && Published(imageIds, Prop(cp, IMAGE).s)
    && (digests != [] ==> FullString(Prop(journal, DIGEST)) && Published(digests, Prop(journal, DIGEST).s))
  }

  /** Comparing prefixed identities compares the identities without the prefix. */
  lemma NormIdStrip(s: JsString, t: JsString)
    ensures NormId(s) == NormId(t) <==> Strip(s) == Strip(t)
  {
    NormIdParts(s);
    NormIdParts(t);
  }

  lemma NormIdParts(s: JsString)
    ensures NormId(s) == Lit("sha256:") + Strip(s)
    ensures NormId(s)[7..] == Strip(s)
  {
  }

  /** What is published, said without prefixes: no list, or one that holds the identity. */
  lemma PublishedExactly(ids: seq<JsString>, s: JsString)
    ensures Published(ids, s) <==> ids == [] || exists i :: 0 <= i < |ids| && Strip(ids[i]) == Strip(s)
  {
    hide NormId, Strip;
    forall i | 0 <= i < |ids| ensures NormId(ids[i]) == NormId(s) <==> Strip(ids[i]) == Strip(s) {
      NormIdStrip(ids[i], s);
    }
  }

  /** The prefix is cut off where it stands, and once. */
  lemma StripExactly(s: JsString)
    ensures Strip(Lit("sha256:") + s) == s
    ensures !(Lit("sha256:") <= s) ==> Strip(s) == s
  {
  }

  /** A receipt is bound to an artifact exactly when it has the shape of one, its journal holds the value of the
      output payload, its image id is published, and so is its kernel digest where digests are given. */
  ghost predicate Bound(artifact: Json, ids: seq<JsString>, digests: seq<JsString>) {
    var cp := Prop(Prop(artifact, Lit("audit_signature")), Lit("compute_proof"));
    var image, journal := Prop(cp, Lit("imageId")), Prop(cp, Lit("journal"));
    var digest := Prop(journal, Lit("kernel_digest"));
    && Prop(cp, Lit("type")) == Str(Lit("ZkVmReceipt"))
    && Prop(cp, Lit("system")).Str? && Prop(cp, Lit("system")) != Str([])
    && Prop(cp, Lit("receiptFormat")) in {Str(Lit("groth16-bn254")), Str(Lit("stark"))}
    && image.Str? && image.s != [] && Prop(cp, Lit("seal")).Str? && Prop(cp, Lit("seal")) != Str([])
    && journal.Obj? && (exists i :: 0 <= i < |journal.members| && journal.members[i].name == Lit("output"))
    && Same(OrNull(Prop(journal, Lit("output"))), OrNull(Prop(artifact, Lit("output_payload"))))
    && (ids == [] || exists i :: 0 <= i < |ids| && Strip(ids[i]) == Strip(image.s))
    && (digests != [] ==>
          && digest.Str? && digest.s != []
          && exists i :: 0 <= i < |digests| && Strip(digests[i]) == Strip(digest.s))
  }

  lemma BoundExactly(artifact: Json, ids: seq<JsString>, digests: seq<JsString>)
    requires Js(artifact)
    ensures VerifyBinding(artifact, ids, digests) <==> Bound(artifact, ids, digests)
  {
    hide Published, Strip, Same, Js, Stringify, Lit, Prop;
    var cp := ComputeProof(artifact);
    var journal := Prop(cp, JOURNAL);
    OutputsDecide(artifact);
    if Prop(cp, IMAGE).Str? { PublishedExactly(ids, Prop(cp, IMAGE).s); }
    if Prop(journal, DIGEST).Str? { PublishedExactly(digests, Prop(journal, DIGEST).s); }
    TypedIsObject(cp);
  }

  lemma TypedIsObject(cp: Json)
    ensures Prop(cp, TYPE) == ZKVM ==> IsObject(cp)
  {
  }

  /** Comparing the canonical texts of the two outputs compares their values. */
  lemma OutputsDecide(artifact: Json)
    requires Js(artifact)
    ensures var out, payload := Prop(Prop(ComputeProof(artifact), JOURNAL), OUT), Prop(artifact, PAYLOAD);
      Stringify(OrNull(out)) == Stringify(OrNull(payload)) <==> Same(OrNull(out), OrNull(payload))
  {
    hide Same, Js, Stringify, Prop;
    PropIsJs(artifact, SIGNATURE);
    PropIsJs(Prop(artifact, SIGNATURE), COMPUTE);
    PropIsJs(ComputeProof(artifact), JOURNAL);
    PropIsJs(Prop(ComputeProof(artifact), JOURNAL), OUT);
    PropIsJs(artifact, PAYLOAD);
    NullIsJs();
    StringifyDecides(OrNull(Prop(Prop(ComputeProof(artifact), JOURNAL), OUT)), OrNull(Prop(artifact, PAYLOAD)));
  }

  /** ids.map(normId).includes(normId(s)). */
  method Includes(ids: seq<JsString>, s: JsString) returns (found: bool)
    ensures found <==> exists i :: 0 <= i < |ids| && Strip(ids[i]) == Strip(s)
  {
    hide NormId, Strip;
    var wanted := NormId(s);
    for i := 0 to |ids|
      invariant forall k :: 0 <= k < i ==> Strip(ids[k]) != Strip(s)
    {
      NormIdStrip(ids[i], s);
      if NormId(ids[i]) == wanted { return true; }
    }
    found := false;
  }

  /** verifyBinding, refusal by refusal. */
  method CheckBound(artifact: Json, ids: seq<JsString>, digests: seq<JsString>) returns (ok: bool)
    requires Js(artifact)
    ensures ok <==> Bound(artifact, ids, digests)
  {
    hide Strip, Same, Js, Stringify, Lit, Prop;
    var cp := Prop(Prop(artifact, SIGNATURE), COMPUTE);
    if !IsObject(cp) || Prop(cp, TYPE) != ZKVM { TypedIsObject(cp); return false; }
    if !FullString(Prop(cp, SYSTEM)) || (Prop(cp, FORMAT) != GROTH16 && Prop(cp, FORMAT) != STARK) { return false; }
    if !FullString(Prop(cp, IMAGE)) || !FullString(Prop(cp, SEAL)) { return false; }
    var journal := Prop(cp, JOURNAL);
    if !IsObject(journal) || !Has(journal, OUT) { return false; }
    OutputsDecide(artifact);
    if Stringify(OrNull(Prop(journal, OUT))) != Stringify(OrNull(Prop(artifact, PAYLOAD))) { return false; }
    if |ids| > 0 {
      var published := Includes(ids, Prop(cp, IMAGE).s);
      if !published { return false; }
    }
    if |digests| > 0 {
      if !FullString(Prop(journal, DIGEST)) { return false; }
      var published := Includes(digests, Prop(journal, DIGEST).s);
      if !published { return false; }
    }
    ok := true;
  }

  /** Journals that are the same value have the same output. */
  lemma SameOutput(j: Json, j': Json)
    requires Js(j) && Js(j') && Same(j, j') && j.Obj? && j'.Obj?
    ensures Stringify(OrNull(Prop(j, OUT))) == Stringify(OrNull(Prop(j', OUT)))
  {
    hide Same, Stringify, Js;
    ObjectParts(j.members, j'.members);
    PropIsJs(j, OUT);
    PropIsJs(j', OUT);
    if !Prop(j, OUT).Undefined? {
      var i := LookupFinds(j.members, OUT);
      assert Same(j.members[i].value, Lookup(j'.members, OUT));
      StringifyDecides(Prop(j, OUT), Prop(j', OUT));
    } else if !Prop(j', OUT).Undefined? {
      var i := LookupFinds(j'.members, OUT);
    }
  }

  /** A seal fixes the output it is attached to: artifacts that their receipts are bound to, with the same public
      inputs, have the same output payload, or the returned byte strings collide. */
  lemma InputsFixOutput(h: Hash, p: Parameters, artifact: Json, artifact': Json,
                        ids: seq<JsString>, digests: seq<JsString>,
                        ids': seq<JsString>, digests': seq<JsString>)
    returns (a: Data, b: Data)
    requires Sized(p) && Js(artifact) && Js(artifact')
    requires VerifyBinding(artifact, ids, digests) && VerifyBinding(artifact', ids', digests')
    requires PublicInputs(h, p, ComputeProof(artifact)).Ok?
    requires PublicInputs(h, p, ComputeProof(artifact)) == PublicInputs(h, p, ComputeProof(artifact'))
    ensures Collision(h, a, b) || Same(OrNull(Prop(artifact, PAYLOAD)), OrNull(Prop(artifact', PAYLOAD)))
  {
    hide PublicInputs, Same, Js, Stringify, Published, FullString, Prop;
    var cp, cp' := ComputeProof(artifact), ComputeProof(artifact');
    PropIsJs(artifact, SIGNATURE);
    PropIsJs(artifact', SIGNATURE);
    PropIsJs(Prop(artifact, SIGNATURE), COMPUTE);
    PropIsJs(Prop(artifact', SIGNATURE), COMPUTE);
    PropIsJs(cp, JOURNAL);
    PropIsJs(cp', JOURNAL);
    PropIsJs(artifact, PAYLOAD);
    PropIsJs(artifact', PAYLOAD);
    a, b := InputsFixClaim(h, p, cp, cp');
    if !Collision(h, a, b) {
      SameOutput(Prop(cp, JOURNAL), Prop(cp', JOURNAL));
      NullIsJs();
      StringifyDecides(OrNull(Prop(artifact, PAYLOAD)), OrNull(Prop(artifact', PAYLOAD)));
    }
  }

  lemma NullIsJs()
    ensures Js(Null)
  {
  }
}
