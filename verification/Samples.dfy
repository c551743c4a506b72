/** Published samples of the formats that are modelled, worked out by the definitions of this project. */
module Samples {
  import opened Bytes
  import opened Text
  import opened Json
  import Numerals
  import Base58
  import Der
  import Claim
  import Merkle
  import Session

  // ---------------------------------------------------------------------------------------------
  // Hash trees

  function LeafOf(h: Hash, d: Data): Data { h.Of([0] + d) }

  function NodeOf(h: Hash, l: Data, r: Data): Data { h.Of([1] + l + r) }

  lemma TreeOf(h: Hash, d: seq<Data>, left: seq<Data>, right: seq<Data>)
    requires |d| > 1 && d == left + right && |left| == Merkle.Split(|d|)
    ensures right != [] && Merkle.Mth(h, d) == NodeOf(h, Merkle.Mth(h, left), Merkle.Mth(h, right))
  {
    hide Merkle.Split;
    assert d[..|left|] == left && d[|left|..] == right;
    assert [1] + (Merkle.Mth(h, left) + Merkle.Mth(h, right)) == [1] + Merkle.Mth(h, left) + Merkle.Mth(h, right);
  }

  lemma PathOf(h: Hash, m: nat, left: seq<Data>, right: seq<Data>)
    requires |left + right| > 1 && |left| == Merkle.Split(|left + right|) && m < |left + right|
    ensures left != [] && right != []
    ensures Merkle.AuditPath(h, m, left + right) ==
      if m < |left| then Merkle.AuditPath(h, m, left) + [Merkle.Mth(h, right)]
      else Merkle.AuditPath(h, m - |left|, right) + [Merkle.Mth(h, left)]
  {
    hide Merkle.Split, Merkle.Mth;
    var d := left + right;
    assert d[..|left|] == left && d[|left|..] == right;
  }

  lemma LeafTree(h: Hash, d: Data)
    ensures Merkle.Mth(h, [d]) == LeafOf(h, d) && Merkle.AuditPath(h, 0, [d]) == []
  {
  }

  lemma Splits()
    ensures Merkle.Split(2) == 1 && Merkle.Split(3) == 2 && Merkle.Split(4) == 2 && Merkle.Split(7) == 4
  {
    assert Merkle.Level(2) == 0 && Merkle.Level(4) == 1 && Merkle.Level(3) == 1 && Merkle.Level(7) == 2;
    assert Pow2(0) == 1 && Pow2(1) == 2 && Pow2(2) == 4;
  }

  /** The tree of seven entries of section 2.1.3 of RFC 6962, with the four audit paths given there. */
  lemma SevenEntries(h: Hash, d0: Data, d1: Data, d2: Data, d3: Data, d4: Data, d5: Data, d6: Data)
    ensures var entries := [d0, d1, d2, d3, d4, d5, d6];
      var (a, b, c, d) := (LeafOf(h, d0), LeafOf(h, d1), LeafOf(h, d2), LeafOf(h, d3));
      var (e, f, j) := (LeafOf(h, d4), LeafOf(h, d5), LeafOf(h, d6));
      var (g, hh, i) := (NodeOf(h, a, b), NodeOf(h, c, d), NodeOf(h, e, f));
      var (k, l) := (NodeOf(h, g, hh), NodeOf(h, i, j));
      && Merkle.Mth(h, entries) == NodeOf(h, k, l)
      && Merkle.AuditPath(h, 0, entries) == [b, hh, l] && Merkle.AuditPath(h, 3, entries) == [c, g, l]
      && Merkle.AuditPath(h, 4, entries) == [f, j, k] && Merkle.AuditPath(h, 6, entries) == [i, k]
  {
    hide Merkle.Mth, Merkle.AuditPath, Merkle.Split, LeafOf, NodeOf;
    Splits();
    LeafTree(h, d0);
    LeafTree(h, d1);
    LeafTree(h, d2);
    LeafTree(h, d3);
    LeafTree(h, d4);
    LeafTree(h, d5);
    LeafTree(h, d6);
    SevenPaths(h, d0, d1, d2, d3, d4, d5, d6);
    TreeOf(h, [d0, d1], [d0], [d1]);
    TreeOf(h, [d2, d3], [d2], [d3]);
    TreeOf(h, [d4, d5], [d4], [d5]);
    TreeOf(h, [d4, d5, d6], [d4, d5], [d6]);
    TreeOf(h, [d0, d1, d2, d3], [d0, d1], [d2, d3]);
    TreeOf(h, [d0, d1, d2, d3, d4, d5, d6], [d0, d1, d2, d3], [d4, d5, d6]);
  }

  lemma SevenPaths(h: Hash, d0: Data, d1: Data, d2: Data, d3: Data, d4: Data, d5: Data, d6: Data)
    ensures var entries := [d0, d1, d2, d3, d4, d5, d6];
      var l, k := Merkle.Mth(h, [d4, d5, d6]), Merkle.Mth(h, [d0, d1, d2, d3]);
      && Merkle.AuditPath(h, 0, entries) == [Merkle.Mth(h, [d1]), Merkle.Mth(h, [d2, d3]), l]
      && Merkle.AuditPath(h, 3, entries) == [Merkle.Mth(h, [d2]), Merkle.Mth(h, [d0, d1]), l]
      && Merkle.AuditPath(h, 4, entries) == [Merkle.Mth(h, [d5]), Merkle.Mth(h, [d6]), k]
      && Merkle.AuditPath(h, 6, entries) == [Merkle.Mth(h, [d4, d5]), k]
  {
    hide *;
    Splits();
    FourPaths(h, d0, d1, d2, d3);
    ThreePaths(h, d4, d5, d6);
    var left, right := [d0, d1, d2, d3], [d4, d5, d6];
    assert left + right == [d0, d1, d2, d3, d4, d5, d6];
    PathOf(h, 0, left, right);
    PathOf(h, 3, left, right);
    PathOf(h, 4, left, right);
    PathOf(h, 6, left, right);
  }

  lemma FourPaths(h: Hash, a: Data, b: Data, c: Data, d: Data)
    ensures Merkle.AuditPath(h, 0, [a, b, c, d]) == [Merkle.Mth(h, [b]), Merkle.Mth(h, [c, d])]
    ensures Merkle.AuditPath(h, 3, [a, b, c, d]) == [Merkle.Mth(h, [c]), Merkle.Mth(h, [a, b])]
  {
    hide *;
    Splits();
    TwoPaths(h, a, b);
    TwoPaths(h, c, d);
    assert [a, b] + [c, d] == [a, b, c, d];
    PathOf(h, 0, [a, b], [c, d]);
    PathOf(h, 3, [a, b], [c, d]);
  }

  lemma ThreePaths(h: Hash, a: Data, b: Data, c: Data)
    ensures Merkle.AuditPath(h, 0, [a, b, c]) == [Merkle.Mth(h, [b]), Merkle.Mth(h, [c])]
    ensures Merkle.AuditPath(h, 2, [a, b, c]) == [Merkle.Mth(h, [a, b])]
  {
    hide *;
    Splits();
    TwoPaths(h, a, b);
    LeafTree(h, c);
    assert [a, b] + [c] == [a, b, c];
    PathOf(h, 0, [a, b], [c]);
    PathOf(h, 2, [a, b], [c]);
  }

  lemma TwoPaths(h: Hash, a: Data, b: Data)
    ensures Merkle.AuditPath(h, 0, [a, b]) == [Merkle.Mth(h, [b])]
    ensures Merkle.AuditPath(h, 1, [a, b]) == [Merkle.Mth(h, [a])]
  {
    hide *;
    Splits();
    LeafTree(h, a);
    LeafTree(h, b);
    assert [a] + [b] == [a, b];
    PathOf(h, 0, [a], [b]);
    PathOf(h, 1, [a], [b]);
  }

  /** A session of three digests: two hash jobs on the first level, the second of the last digest with itself. */
  lemma ThreeEntries(h: Hash, a: JsString, b: JsString, c: JsString)
    ensures Session.Root(h, [a, b, c]) ==
      Hex(h.Of(TextEncode(Hex(h.Of(TextEncode(a + b))) + Hex(h.Of(TextEncode(c + c))))))
  {
    hide Hex, TextEncode;
    var n := [a, b, c];
    assert Session.Width(3, 1) == 2 && Session.Width(3, 2) == 1 && Session.Height(3) == 2;
    assert Session.Node(h, n, 1, 0) == Session.Pair(h, a, b);
    assert Session.Node(h, n, 1, 1) == Session.Pair(h, c, c);
  }

  // ---------------------------------------------------------------------------------------------
  // Codecs

  /** The base58 alphabet, in order. */
  lemma Alphabet(d: nat)
    requires d < 58
    ensures Base58.Letter(d) == (Lit("123456789") + Lit("ABCDEFGH") + Lit("JKLMN") + Lit("PQRSTUVWXYZ")
                                 + Lit("abcdefghijk") + Lit("mnopqrstuvwxyz"))[d]
  {
    hide Lit;
    if d < 9 {
      Run("123456789", 49, d);
    } else if d < 17 {
      Run("ABCDEFGH", 65, d - 9);
    } else if d < 22 {
      Run("JKLMN", 74, d - 17);
    } else if d < 33 {
      Run("PQRSTUVWXYZ", 80, d - 22);
    } else if d < 44 {
      Run("abcdefghijk", 97, d - 33);
    } else {
      Run("mnopqrstuvwxyz", 109, d - 44);
    }
  }

  /** Consecutive ASCII characters. */
  lemma Run(s: string, first: nat, k: nat)
    requires |s| <= 14 && first <= 109 && forall i :: 0 <= i < |s| ==> s[i] as int == first + i
    requires k < |s|
    ensures Lit(s)[k] == first + k
  {
  }

  /** The object identifier {2 100 3} of section 8.19.5 of X.690. */
  lemma ObjectIdentifier()
    ensures Der.OidContent([2, 100, 3]) == [0x81, 0x34, 0x03]
  {
    assert Der.Base128(180) == [0x81, 0x34];
    assert [2, 100, 3][2..] == [3] && [3][1..] == [];
  }

  /** SEQUENCE { INTEGER 5 }. */
  lemma SmallSequence()
    ensures var five := Der.Tree(Der.Tag(0, 2), 0, Der.Content([5]));
      var pair := Der.Tree(Der.Tag(0, 16), 0, Der.Children([five]));
      Der.Valid(pair) && Der.Encode(pair) == [0x30, 0x03, 0x02, 0x01, 0x05]
  {
    var five := Der.Tree(Der.Tag(0, 2), 0, Der.Content([5]));
    assert Der.Valid(five) && Der.Encode(five) == [0x02, 0x01, 0x05];
    assert [five][1..] == [];
    assert Der.EncodeAll([five]) == [0x02, 0x01, 0x05] + Der.EncodeAll([]) == [0x02, 0x01, 0x05];
  }

  /** A context tag above 30, and a length in two octets. */
  lemma LongForms()
    ensures var t := Der.Tree(Der.Tag(2, 201), 2, Der.Content([7]));
      Der.Valid(t) && Der.Encode(t) == [0x9F, 0x81, 0x49, 0x82, 0x00, 0x01, 0x07]
  {
    assert Claim.Pow256(2) == 0x10000 && BigEndian(1, 2) == [0, 1];
    assert Der.Base128(201) == [0x81, 0x49];
  }

  // ---------------------------------------------------------------------------------------------
  // Canonical text

  /** The tokens, and no space between them. */
  lemma Tokens()
    ensures Emit(Null) == Lit("null") && Emit(Bool(true)) == Lit("true") && Emit(Bool(false)) == Lit("false")
    ensures Emit(Arr([])) == Lit("[]") && Emit(Obj([])) == Lit("{}")
    ensures Emit(Arr([Null, Bool(true)])) == Lit("[null,true]")
    ensures Emit(Obj([Member(Lit("k"), Null)])) == Lit("{\"k\":null}")
  {
    hide Emit, EmitItems, Quote;
    Words();
    Brackets([]);
    Brackets([Null, Bool(true)]);
    assert EmitItems([]) == [];
    TwoItems(Null, Bool(true));
    OneMember(Member(Lit("k"), Null));
    assert Lit("{\"k\":null}") == [123] + (Lit("\"k\"") + [COLON] + Lit("null")) + [125];
    assert Lit("[null,true]") == [91] + (Lit("null") + ([COMMA] + Lit("true"))) + [93];
    SampleQuote();
  }

  lemma Words()
    ensures Emit(Null) == Lit("null") && Emit(Bool(true)) == Lit("true") && Emit(Bool(false)) == Lit("false")
    ensures Emit(Arr([])) == Lit("[]") && Emit(Obj([])) == Lit("{}")
  {
  }

  lemma Brackets(items: seq<Json>)
    ensures Emit(Arr(items)) == [91] + EmitItems(items) + [93]
  {
  }

  lemma TwoItems(a: Json, b: Json)
    ensures EmitItems([a, b]) == Emit(a) + ([COMMA] + Emit(b))
  {
    hide Emit;
    assert [a, b][1..] == [b];
    assert EmitItems([b]) == Emit(b) + [] == Emit(b);
  }

  lemma OneMember(m: Member)
    ensures Emit(Obj([m])) == [123] + (Quote(m.name) + [COLON] + Emit(m.value)) + [125]
  {
    hide Quote;
    assert EmitMembers([m]) == Quote(m.name) + [COLON] + Emit(m.value);
  }

  lemma SampleQuote()
    ensures Quote(Lit("k")) == Lit("\"k\"")
  {
    var k := Lit("k");
    assert k == [107] && k[1..] == [];
    assert Body(k) == Escape(107) + Body([]) == [107];
  }
}
