/** The DER reader of the timestamp checks and its re-encoder (sections 8.1 and 10.1 of X.690): for every
    definite-length tree, anywhere in a buffer, reading inverts writing. */
module Der {
  import opened Bytes
  import Claim

  type Class = c: nat | c < 4

  datatype Tag = Tag(cls: Class, number: nat)

  datatype Body = Content(bytes: Data) | Children(trees: seq<Tree>)

  /** form is the number of length octets after the first, 0 for the short form. */
  datatype Tree = Tree(tag: Tag, form: nat, body: Body)

  // ---------------------------------------------------------------------------------------------
  // Writing

  /** The base-128 octets of n, all marked as continued. */
  function Continued(n: nat): (d: Data)
    ensures d != [] && forall i :: 0 <= i < |d| ==> d[i] >= 128
  {
    if n < 128 then [128 + n] else Continued(n / 128) + [128 + n % 128]
  }

  function Base128(n: nat): (d: Data)
    ensures d != [] && d[|d| - 1] < 128 && forall i :: 0 <= i < |d| - 1 ==> d[i] >= 128
  {
    if n < 128 then [n] else Continued(n / 128) + [n % 128]
  }

  function Identifier(tag: Tag, constructed: bool): (d: Data)
    ensures d != []
  {
    var high: nat := tag.cls * 64 + (if constructed then 32 else 0);
    if tag.number < 31 then [high + tag.number] else [high + 31] + Base128(tag.number)
  }

  predicate Fits(len: nat, form: nat) {
    if form == 0 then len < 128 else form < 128 && len < Claim.Pow256(form)
  }

  function Length(len: nat, form: nat): (d: Data)
    requires Fits(len, form)
    ensures |d| == 1 + form
  {
    if form == 0 then [len] else [128 + form] + BigEndian(len, form)
  }

  predicate Valid(t: Tree)
    decreases t, 0
  {
    match t.body
    case Content(bytes) => Fits(|bytes|, t.form)
    case Children(trees) => ValidAll(trees) && Fits(|EncodeAll(trees)|, t.form)
  }

  predicate ValidAll(ts: seq<Tree>)
    decreases ts, 0
  {
    ts == [] || (Valid(ts[0]) && ValidAll(ts[1..]))
  }

  function Inside(t: Tree): Data
    requires Valid(t)
  {
    match t.body
    case Content(bytes) => bytes
    case Children(trees) => EncodeAll(trees)
  }

  function Header(t: Tree): (d: Data)
    requires Valid(t)
    ensures d != []
  {
    Identifier(t.tag, t.body.Children?) + Length(|Inside(t)|, t.form)
  }

  function Encode(t: Tree): (d: Data)
    requires Valid(t)
    ensures d != []
    decreases t, 1
  {
    match t.body
    case Content(bytes) => Identifier(t.tag, false) + Length(|bytes|, t.form) + bytes
    case Children(trees) => Identifier(t.tag, true) + Length(|EncodeAll(trees)|, t.form) + EncodeAll(trees)
  }

  function EncodeAll(ts: seq<Tree>): Data
    requires ValidAll(ts)
    decreases ts, 1
  {
    if ts == [] then [] else Encode(ts[0]) + EncodeAll(ts[1..])
  }

  lemma EncodeParts(t: Tree)
    requires Valid(t)
    ensures Encode(t) == Header(t) + Inside(t)
  {
  }

  // ---------------------------------------------------------------------------------------------
  // Reading

  datatype Node = Node(start: nat, tagClass: Class, constructed: bool, tagNumber: int, contentStart: nat,
                       contentEnd: nat, end: nat)

  /** A bit-shift result: the low 32 bits, signed. */
  function Wrap(x: int): (r: int)
    ensures -0x8000_0000 <= r < 0x8000_0000
  {
    var m := x % 0x1_0000_0000;
    if m >= 0x8000_0000 then m - 0x1_0000_0000 else m
  }

  /** It differs from the integer by a multiple of 2^32. */
  lemma WrapExactly(x: int)
    ensures (x - Wrap(x)) % 0x1_0000_0000 == 0
  {
  }

  /** The reader's view of t at an offset. Tag numbers from 2^31 on wrap around. */
  function NodeOf(t: Tree, offset: nat): Node
    requires Valid(t)
  {
    var start := offset + |Header(t)|;
    Node(offset, t.tag.cls, t.body.Children?, Wrap(t.tag.number), start, start + |Inside(t)|, start + |Inside(t)|)
  }

  predicate At(bytes: Data, offset: nat, d: Data) {
    offset + |d| <= |bytes| && bytes[offset..offset + |d|] == d
  }

  lemma AtSplit(bytes: Data, offset: nat, x: Data, y: Data)
    ensures At(bytes, offset, x + y) <==> At(bytes, offset, x) && At(bytes, offset + |x|, y)
  {
    if At(bytes, offset, x + y) {
      var s := bytes[offset..offset + |x + y|];
      assert bytes[offset..offset + |x|] == s[..|x|] == x;
      assert bytes[offset + |x|..offset + |x| + |y|] == s[|x|..] == y;
    }
    if At(bytes, offset, x) && At(bytes, offset + |x|, y) {
      assert bytes[offset..offset + |x + y|] == bytes[offset..offset + |x|] + bytes[offset + |x|..offset + |x| + |y|];
    }
  }

  lemma AtIndex(bytes: Data, offset: nat, d: Data, i: nat)
    requires At(bytes, offset, d) && i < |d|
    ensures offset + |d| <= |bytes| && bytes[offset + i] == d[i]
  {
    assert bytes[offset..offset + |d|][i] == bytes[offset + i];
  }

  /** The base-128 value of octets, whatever their top bits. */
  function Value128(d: Data): nat {
    if d == [] then 0 else Value128(d[..|d| - 1]) * 128 + d[|d| - 1] % 128
  }

  lemma Value128Snoc(d: Data, b: Byte)
    ensures Value128(d + [b]) == Value128(d) * 128 + b % 128
  {
    assert (d + [b])[..|d|] == d;
  }

  lemma {:induction false} ContinuedValue(n: nat)
    ensures Value128(Continued(n)) == n
  {
    if n < 128 {
      assert [128 + n][..0] == [];
    } else {
      ContinuedValue(n / 128);
      Value128Snoc(Continued(n / 128), 128 + n % 128);
    }
  }

  lemma Base128Value(n: nat)
    ensures Value128(Base128(n)) == n
  {
    if n < 128 {
      assert [n][..0] == [];
    } else {
      ContinuedValue(n / 128);
      Value128Snoc(Continued(n / 128), n % 128);
    }
  }

  /** One shift of the tag number keeps it the wrapped value. */
  lemma WrapStep(a: int, low: int)
    requires 0 <= low < 128
    ensures Wrap(Wrap(a) * 128) + low == Wrap(a * 128 + low)
  {
    var k := (a - Wrap(a)) / 0x1_0000_0000;
    assert a == Wrap(a) + 0x1_0000_0000 * k;
    var x := Wrap(a) * 128;
    assert a * 128 == x + 0x1_0000_0000 * (128 * k);
    ModShift(x, 128 * k);
    ModShift(x + low, 128 * k);
    var q := x / 0x1_0000_0000;
    assert x == 0x1_0000_0000 * q + x % 0x1_0000_0000;
  }

  lemma ModShift(x: int, k: int)
    ensures (x + 0x1_0000_0000 * k) % 0x1_0000_0000 == x % 0x1_0000_0000
  {
  }

  lemma IntBESnoc(d: Data, b: Byte)
    ensures Claim.IntBE(d + [b]) == Claim.IntBE(d) * 256 + b
  {
    assert (d + [b])[..|d|] == d;
  }

  /** The high tag number form: octets until one has no continuation bit. */
  method ReadTagNumber(bytes: Data, offset: nat, ghost n: nat) returns (number: int, p: nat)
    requires At(bytes, offset, Base128(n))
    ensures number == Wrap(n) && p == offset + |Base128(n)|
  {
    hide Base128, Wrap, At, Value128;
    Value128Empty();
    ghost var d := Base128(n);
    number, p := 0, offset;
    assert d[..0] == [];
    WrapZero();
    var more := true;
    while more
      invariant offset <= p <= offset + |d|
      invariant number == Wrap(Value128(d[..p - offset]))
      invariant more == (p < offset + |d|)
      decreases offset + |d| - p
    {
      AtIndex(bytes, offset, d, p - offset);
      var b: nat := bytes[p];
      assert d[..p - offset + 1] == d[..p - offset] + [b];
      Value128Snoc(d[..p - offset], b);
      WrapStep(Value128(d[..p - offset]), b % 128);
      number := Wrap(number * 128) + b % 128;
      p := p + 1;
      more := b >= 128;
    }
    assert d[..|d|] == d;
    Base128Value(n);
  }

  lemma Value128Empty()
    ensures Value128([]) == 0
  {
  }

  lemma WrapZero()
    ensures Wrap(0) == 0
  {
  }

  method ReadLength(bytes: Data, offset: nat, ghost len: nat, ghost form: nat) returns (length: nat, p: nat)
    requires Fits(len, form) && At(bytes, offset, Length(len, form))
    ensures length == len && p == offset + 1 + form
  {
    hide BigEndian, Claim.IntBE, Claim.Pow256, At;
    ghost var d := Length(len, form);
    AtIndex(bytes, offset, d, 0);
    var lenByte: nat := bytes[offset];
    p := offset + 1;
    if lenByte >= 128 {
      var n := lenByte - 128;
      ghost var o := BigEndian(len, form);
      AtSplit(bytes, offset, [lenByte], o);
      length := 0;
      assert o[..0] == [];
      IntBEEmpty();
      for i := 0 to n
        invariant p == offset + 1 + i && length == Claim.IntBE(o[..i])
      {
        AtIndex(bytes, offset + 1, o, i);
        assert o[..i + 1] == o[..i] + [o[i]];
        IntBESnoc(o[..i], o[i]);
        var b: nat := bytes[p];
        length := length * 256 + b;
        p := p + 1;
      }
      assert o[..n] == o;
      Claim.BigEndianValue(len, form);
    } else {
      length := lenByte;
    }
  }

  lemma IntBEEmpty()
    ensures Claim.IntBE([]) == 0
  {
  }

  /** derParse finds the exact extent of a tree that stands at the offset. */
  method DerParse(bytes: Data, offset: nat, ghost t: Tree) returns (node: Node)
    requires Valid(t) && At(bytes, offset, Encode(t))
    ensures node == NodeOf(t, offset)
  {
    hide Length, Base128, Fits, Wrap, Encode, Valid, Inside, At, Header, Identifier;
    EncodeParts(t);
    HeaderParts(t);
    ghost var id, len := Identifier(t.tag, t.body.Children?), Length(|Inside(t)|, t.form);
    AtSplit(bytes, offset, Header(t), Inside(t));
    AtSplit(bytes, offset, id, len);
    AtIndex(bytes, offset, id, 0);
    var b0: nat := bytes[offset];
    var tagClass, constructed, tagNumber := b0 / 64, b0 / 32 % 2 == 1, b0 % 32;
    FirstOctet(t.tag, t.body.Children?);
    var p := offset + 1;
    if tagNumber == 31 {
      AtSplit(bytes, offset, [b0], Base128(t.tag.number));
      tagNumber, p := ReadTagNumber(bytes, p, t.tag.number);
    } else {
      SmallWrap(t.tag.number);
    }
    var length;
    length, p := ReadLength(bytes, p, |Inside(t)|, t.form);
    node := Node(offset, tagClass, constructed, tagNumber, p, p + length, p + length);
  }

  lemma HeaderParts(t: Tree)
    requires Valid(t)
    ensures Fits(|Inside(t)|, t.form)
    ensures Header(t) == Identifier(t.tag, t.body.Children?) + Length(|Inside(t)|, t.form)
  {
  }

  lemma FirstOctet(tag: Tag, constructed: bool)
    ensures var b := Identifier(tag, constructed)[0];
      && b / 64 == tag.cls && (b / 32 % 2 == 1) == constructed
      && b % 32 == if tag.number < 31 then tag.number else 31
    ensures tag.number < 31 ==> |Identifier(tag, constructed)| == 1
    ensures tag.number >= 31 ==> Identifier(tag, constructed) == [Identifier(tag, constructed)[0]] + Base128(tag.number)
  {
  }

  lemma SmallWrap(n: nat)
    requires n < 0x8000_0000
    ensures Wrap(n) == n
  {
  }

  /** The tag number that is read is the one written exactly below 2^31. */
  lemma TagNumberExact(t: Tree, offset: nat)
    requires Valid(t)
    ensures NodeOf(t, offset).tagNumber == t.tag.number <==> t.tag.number < 0x8000_0000
  {
    if t.tag.number < 0x8000_0000 { SmallWrap(t.tag.number); }
  }

  // ---------------------------------------------------------------------------------------------
  // Children

  function NodesOf(ts: seq<Tree>, offset: nat): (ns: seq<Node>)
    requires ValidAll(ts)
    ensures |ns| == |ts|
  {
    if ts == [] then [] else [NodeOf(ts[0], offset)] + NodesOf(ts[1..], offset + |Encode(ts[0])|)
  }

  method DerChildren(bytes: Data, node: Node, ghost t: Tree) returns (out: seq<Node>)
    requires Valid(t) && t.body.Children? && node == NodeOf(t, node.start) && At(bytes, node.start, Encode(t))
    ensures out == NodesOf(t.body.trees, node.contentStart)
  {
    hide Encode, NodesOf, Valid, Header, At;
    ghost var ts := t.body.trees;
    EncodeParts(t);
    InsideChildren(t);
    AtSplit(bytes, node.start, Header(t), Inside(t));
    out := [];
    var p := node.contentStart;
    ghost var rest := ts;
    while p < node.contentEnd
      invariant ValidAll(rest) && At(bytes, p, EncodeAll(rest)) && p + |EncodeAll(rest)| == node.contentEnd
      invariant out + NodesOf(rest, p) == NodesOf(ts, node.contentStart)
      decreases node.contentEnd - p
    {
      AtSplit(bytes, p, Encode(rest[0]), EncodeAll(rest[1..]));
      var c := DerParse(bytes, p, rest[0]);
      NodesStep(rest, p);
      EncodeParts(rest[0]);
      assert out + ([c] + NodesOf(rest[1..], c.end)) == (out + [c]) + NodesOf(rest[1..], c.end);
      out := out + [c];
      p := c.end;
      rest := rest[1..];
    }
    NoNodes(rest, p);
  }

  lemma InsideChildren(t: Tree)
    requires Valid(t) && t.body.Children?
    ensures ValidAll(t.body.trees) && Inside(t) == EncodeAll(t.body.trees)
  {
  }

  lemma NodesStep(ts: seq<Tree>, offset: nat)
    requires ValidAll(ts) && ts != []
    ensures NodesOf(ts, offset) == [NodeOf(ts[0], offset)] + NodesOf(ts[1..], offset + |Encode(ts[0])|)
    ensures NodeOf(ts[0], offset).end == offset + |Encode(ts[0])|
  {
  }

  lemma NoNodes(ts: seq<Tree>, offset: nat)
    requires ValidAll(ts) && |EncodeAll(ts)| == 0
    ensures NodesOf(ts, offset) == []
  {
  }

  /** The children tile the content: each starts where the one before it ends, the last one ends at the end, and
      each stands there in full. */
  lemma {:induction false} ChildrenTile(bytes: Data, ts: seq<Tree>, offset: nat, i: nat)
    requires ValidAll(ts) && At(bytes, offset, EncodeAll(ts)) && i < |ts|
    ensures Valid(ts[i]) && NodesOf(ts, offset)[i] == NodeOf(ts[i], NodesOf(ts, offset)[i].start)
    ensures At(bytes, NodesOf(ts, offset)[i].start, Encode(ts[i]))
    ensures NodesOf(ts, offset)[0].start == offset
    ensures i > 0 ==> NodesOf(ts, offset)[i].start == NodesOf(ts, offset)[i - 1].end
    ensures i == |ts| - 1 ==> NodesOf(ts, offset)[i].end == offset + |EncodeAll(ts)|
  {
    hide Encode, Valid, Inside, Header;
    NodesStep(ts, offset);
    AtSplit(bytes, offset, Encode(ts[0]), EncodeAll(ts[1..]));
    if i > 0 { ChildrenTile(bytes, ts[1..], offset + |Encode(ts[0])|, i - 1); }
  }

  // ---------------------------------------------------------------------------------------------
  // Re-encoding

  function MinBytes(v: nat): Data {
    if v == 0 then [] else MinBytes(v / 256) + [v % 256]
  }

  lemma {:induction false} MinBytesLength(v: nat, k: nat)
    ensures |MinBytes(v)| <= k <==> v < Claim.Pow256(k)
    decreases k
  {
    if v == 0 {
      PowPositive(k);
    } else if k > 0 {
      MinBytesLength(v / 256, k - 1);
    }
  }

  lemma {:induction k} PowPositive(k: nat)
    ensures Claim.Pow256(k) > 0
  {
  }

  lemma {:induction false} MinBytesBigEndian(v: nat)
    ensures MinBytes(v) == BigEndian(v, |MinBytes(v)|)
  {
    if v > 0 { MinBytesBigEndian(v / 256); }
  }

  /** The DER length form: short below 128, otherwise without leading zeros. */
  function Minimal(len: nat): nat { if len < 128 then 0 else |MinBytes(len)| }

  /** What the re-encoder writes: its unsigned shift keeps 32 bits. */
  function Octets(len: nat): (d: Data)
    ensures 1 <= |d| <= 4
  {
    var l := len % 0x1_0000_0000 / 256;
    assert Claim.Pow256(3) == 256 * (256 * Claim.Pow256(1)) == 0x100_0000;
    MinBytesLength(l, 3);
    MinBytes(l) + [len % 256]
  }

  function Reencoded(len: nat): (d: Data)
    ensures d != []
  {
    if len < 128 then [len] else [128 + |Octets(len)|] + Octets(len)
  }

  method EncodeDerLength(len: nat) returns (d: Data)
    ensures d == Reencoded(len)
  {
    hide MinBytes, Octets;
    if len < 128 { return [len]; }
    var arr: Data, l := [], len;
    ghost var first := true;
    while l > 0
      invariant first ==> arr == [] && l == len
      invariant !first ==> l < 0x100_0000 && MinBytes(l) + arr == Octets(len)
      decreases l
    {
      LastOctet(l, arr);
      arr := [l % 256] + arr;
      l := l % 0x1_0000_0000 / 256;
      if first { OctetsOf(len); }
      first := false;
    }
    NoBytes();
    assert [] + arr == arr;
    d := [128 + |arr|] + arr;
  }

  lemma LastOctet(l: nat, arr: Data)
    requires l > 0
    ensures MinBytes(l) + arr == MinBytes(l / 256) + ([l % 256] + arr)
    ensures l < 0x100_0000 ==> l % 0x1_0000_0000 / 256 == l / 256
  {
    hide MinBytes;
    MinBytesStep(l);
    var last: Data := [l % 256];
    assert (MinBytes(l / 256) + last) + arr == MinBytes(l / 256) + (last + arr);
  }

  lemma MinBytesStep(l: nat)
    requires l > 0
    ensures MinBytes(l) == MinBytes(l / 256) + [l % 256]
  {
  }

  lemma OctetsOf(len: nat)
    ensures Octets(len) == MinBytes(len % 0x1_0000_0000 / 256) + ([len % 256] + [])
    ensures len % 0x1_0000_0000 / 256 < 0x100_0000
  {
  }

  lemma NoBytes()
    ensures MinBytes(0) == []
  {
  }

  /** The re-encoded length is at most as long as any valid one, and as long only when that one is minimal. */
  lemma ReencodedShortest(len: nat, form: nat)
    requires Fits(len, form)
    ensures |Reencoded(len)| <= 1 + form
    ensures |Reencoded(len)| == 1 + form <==> form == Minimal(len) && len < 0x1_0000_0000
  {
    hide MinBytes;
    if len >= 128 {
      assert Claim.Pow256(4) == 256 * (256 * Claim.Pow256(2)) == 0x1_0000_0000;
      assert form > 0;
      MinBytesLength(len, form);
      MinBytesLength(len, 4);
      OctetsMinimal(len);
    }
  }

  lemma OctetsMinimal(len: nat)
    requires len > 0
    ensures len < 0x1_0000_0000 ==> Octets(len) == MinBytes(len)
  {
    assert len < 0x1_0000_0000 ==> len % 0x1_0000_0000 == len;
  }

  /** encodeDerLength writes the DER length exactly below 2^32. */
  lemma LengthExact(len: nat)
    requires Fits(len, Minimal(len))
    ensures Reencoded(len) == Length(len, Minimal(len)) <==> len < 0x1_0000_0000
  {
    hide MinBytes, Octets;
    ReencodedShortest(len, Minimal(len));
    if 128 <= len < 0x1_0000_0000 {
      OctetsMinimal(len);
      MinBytesBigEndian(len);
    }
  }

  function SetOf(content: Data): Data { [0x31] + Reencoded(|content|) + content }

  method SignedAttrsToSet(bytes: Data, node: Node) returns (d: Data)
    requires node.contentStart <= node.contentEnd <= |bytes|
    ensures d == SetOf(bytes[node.contentStart..node.contentEnd])
  {
    var content := bytes[node.contentStart..node.contentEnd];
    var length := EncodeDerLength(|content|);
    d := [0x31] + length + content;
  }

  lemma SliceOfNode(bytes: Data, t: Tree, offset: nat)
    requires Valid(t) && At(bytes, offset, Encode(t))
    ensures var node := NodeOf(t, offset);
      node.contentEnd <= |bytes| && bytes[node.contentStart..node.contentEnd] == Inside(t)
      && node.end == offset + |Encode(t)|
  {
    hide Encode, Inside, Header;
    EncodeParts(t);
    AtSplit(bytes, offset, Header(t), Inside(t));
  }

  /** signedAttrsToSet changes the first byte and nothing else exactly when the tag is one octet and the length is
      minimal and below 2^32. */
  lemma OnlyFirstByte(t: Tree)
    requires Valid(t)
    ensures SetOf(Inside(t)) == Encode(t)[0 := 0x31] <==>
      t.tag.number < 31 && t.form == Minimal(|Inside(t)|) && |Inside(t)| < 0x1_0000_0000
  {
    hide Encode, Inside, Reencoded, Length, Minimal, Base128, Fits;
    EncodeParts(t);
    HeaderParts(t);
    var id, content := Identifier(t.tag, t.body.Children?), Inside(t);
    var length := Length(|content|, t.form);
    ReencodedShortest(|content|, t.form);
    FirstOctet(t.tag, t.body.Children?);
    if t.tag.number < 31 && t.form == Minimal(|content|) && |content| < 0x1_0000_0000 {
      LengthExact(|content|);
      assert (id + length + content)[0 := 0x31] == [0x31] + length + content;
    } else {
      assert |SetOf(content)| == 1 + |Reencoded(|content|)| + |content|;
      assert |Encode(t)| == |id| + (1 + t.form) + |content|;
      assert |SetOf(content)| != |Encode(t)|;
    }
  }

  /** The same in place: the node read from a buffer, set against the bytes that stand there. */
  lemma OnlyFirstByteInPlace(bytes: Data, t: Tree, offset: nat)
    requires Valid(t) && At(bytes, offset, Encode(t))
    ensures var node := NodeOf(t, offset);
      node.contentEnd <= |bytes| &&
      (SetOf(bytes[node.contentStart..node.contentEnd]) == bytes[offset..node.end][0 := 0x31] <==>
       t.tag.number < 31 && t.form == Minimal(|Inside(t)|) && |Inside(t)| < 0x1_0000_0000)
  {
    hide Encode, Inside, SetOf, Minimal;
    SliceOfNode(bytes, t, offset);
    OnlyFirstByte(t);
  }

  /** Below 2^32 it is the DER encoding of the same content under the SET tag. */
  lemma SetIsEncoded(t: Tree)
    requires Valid(t) && t.body.Children? && |Inside(t)| < 0x1_0000_0000
    ensures var set_ := Tree(Tag(0, 17), Minimal(|Inside(t)|), t.body);
      Valid(set_) && Encode(set_) == SetOf(Inside(t))
  {
    var len := |Inside(t)|;
    MinimalFits(len);
    LengthExact(len);
  }

  lemma MinimalFits(len: nat)
    requires len < 0x1_0000_0000
    ensures Fits(len, Minimal(len))
  {
    assert Claim.Pow256(4) == 256 * (256 * Claim.Pow256(2)) == 0x1_0000_0000;
    MinBytesLength(len, 4);
    MinBytesLength(len, Minimal(len));
  }

  // ---------------------------------------------------------------------------------------------
  // Object identifiers

  function Base128All(arcs: seq<nat>): Data {
    if arcs == [] then [] else Base128(arcs[0]) + Base128All(arcs[1..])
  }

  /** An identifier: its first two arcs share a number, so the second is below 40 under arcs 0 and 1. */
  predicate Arcs(arcs: seq<nat>) {
    |arcs| >= 2 && arcs[0] <= 2 && (arcs[0] < 2 ==> arcs[1] < 40)
  }

  function OidContent(arcs: seq<nat>): (d: Data)
    requires Arcs(arcs)
    ensures d != []
  {
    Base128(40 * arcs[0] + arcs[1]) + Base128All(arcs[2..])
  }

  /** The arcs in octets, the unfinished one being val. */
  function ReadArcs(b: Data, val: nat): seq<nat> {
    if b == [] then []
    else if b[0] < 128 then [val * 128 + b[0]] + ReadArcs(b[1..], 0)
    else ReadArcs(b[1..], val * 128 + b[0] % 128)
  }

  function OidArcs(b: Data): (s: seq<nat>)
    requires b != []
  {
    [b[0] / 40, b[0] % 40] + ReadArcs(b[1..], 0)
  }

  method DerOid(b: Data) returns (s: seq<nat>)
    requires b != []
    ensures s == OidArcs(b)
  {
    var first: nat := b[0];
    s := [first / 40];
    s := s + [first % 40];
    var val: nat := 0;
    for i := 1 to |b|
      invariant s + ReadArcs(b[i..], val) == OidArcs(b)
    {
      assert b[i..][0] == b[i] && b[i..][1..] == b[i + 1..];
      var o: nat := b[i];
      val := val * 128 + o % 128;
      if o < 128 {
        assert s + ([val] + ReadArcs(b[i + 1..], 0)) == (s + [val]) + ReadArcs(b[i + 1..], 0);
        s := s + [val];
        val := 0;
      }
    }
    assert b[|b|..] == [];
  }

  /** Reading a continued prefix folds its octets into the unfinished arc. */
  lemma {:induction false} ReadContinued(n: nat, rest: Data)
    ensures ReadArcs(Continued(n) + rest, 0) == ReadArcs(rest, n)
  {
    if n < 128 {
      assert ([128 + n] + rest)[1..] == rest;
    } else {
      var tail := [128 + n % 128] + rest;
      assert Continued(n) + rest == Continued(n / 128) + tail;
      ReadContinued(n / 128, tail);
      assert tail[1..] == rest;
    }
  }

  lemma ReadBase128(n: nat, rest: Data)
    ensures ReadArcs(Base128(n) + rest, 0) == [n] + ReadArcs(rest, 0)
  {
    if n < 128 {
      assert ([n] + rest)[1..] == rest;
    } else {
      var tail := [n % 128] + rest;
      assert Base128(n) + rest == Continued(n / 128) + tail;
      ReadContinued(n / 128, tail);
      assert tail[1..] == rest;
    }
  }

  lemma {:induction false} ReadAll(arcs: seq<nat>)
    ensures ReadArcs(Base128All(arcs), 0) == arcs
  {
    if arcs != [] {
      ReadBase128(arcs[0], Base128All(arcs[1..]));
      ReadAll(arcs[1..]);
      assert arcs == [arcs[0]] + arcs[1..];
    }
  }

  /** derOid reads back the identifier that was written exactly when its second arc is below 40. */
  lemma OidExact(arcs: seq<nat>)
    requires Arcs(arcs)
    ensures OidArcs(OidContent(arcs)) == arcs <==> arcs[1] < 40
  {
    hide Base128All;
    var n := 40 * arcs[0] + arcs[1];
    var b := OidContent(arcs);
    assert b[0] == Base128(n)[0];
    if arcs[1] < 40 {
      assert Base128(n) == [n] && b[1..] == Base128All(arcs[2..]);
      ReadAll(arcs[2..]);
      assert arcs == [arcs[0], arcs[1]] + arcs[2..];
    } else {
      assert b[0] >= 120;
      assert OidArcs(b)[0] >= 3;
    }
  }

  // ---------------------------------------------------------------------------------------------
  // ECDSA signatures

  /** toFixed: a byte string padded to size, one sign octet dropped. None is the exception of a string too long. */
  function ToFixed(b: Data, size: nat): (r: Option<Data>)
    ensures r.Some? ==> |r.value| == size
  {
    var c := if b != [] && b[0] == 0 && |b| > size then b[1..] else b;
    if |c| > size then None else
      var zeros: Data := seq<Byte>(size - |c|, i => 0);
      Some(zeros + c)
  }

  lemma {:induction false} LeadingZero(k: nat, b: Data)
    ensures Claim.IntBE(seq<Byte>(k, i => 0) + b) == Claim.IntBE(b)
    decreases |b|, k
  {
    var z := seq<Byte>(k, i => 0);
    if b == [] {
      if k > 0 {
        assert (z + b)[..k - 1] == seq<Byte>(k - 1, i => 0) + [];
        LeadingZero(k - 1, []);
      } else {
        assert z + b == [];
      }
    } else {
      var init := b[..|b| - 1];
      assert (z + b)[..|z + b| - 1] == z + init;
      LeadingZero(k, init);
    }
  }

  /** The fixed form has the value of the integer, and exists for any nonnegative DER integer that fits. */
  lemma FixedValue(b: Data, size: nat)
    ensures ToFixed(b, size).Some? <==> |b| <= size || (|b| == size + 1 && b[0] == 0)
    ensures ToFixed(b, size).Some? ==> Claim.IntBE(ToFixed(b, size).value) == Claim.IntBE(b)
  {
    hide Claim.IntBE;
    if ToFixed(b, size).Some? {
      var c := if b != [] && b[0] == 0 && |b| > size then b[1..] else b;
      LeadingZero(size - |c|, c);
      if c != b {
        assert b == seq<Byte>(1, i => 0) + c;
        LeadingZero(1, c);
      }
    }
  }

  method EcdsaDerToRaw(sigDer: Data, size: nat, ghost t: Tree) returns (raw: Option<Data>)
    requires Valid(t) && At(sigDer, 0, Encode(t)) && t.body.Children? && |t.body.trees| >= 2
    ensures var ts := t.body.trees;
      ValidAll(ts) && Valid(ts[0]) && Valid(ts[1])
      && var r, s := ToFixed(Inside(ts[0]), size), ToFixed(Inside(ts[1]), size);
      raw == if r.Some? && s.Some? then Some(r.value + s.value) else None
  {
    hide Encode, NodesOf, Valid, Header, Inside, ToFixed, At;
    var root := DerParse(sigDer, 0, t);
    var kids := DerChildren(sigDer, root, t);
    ghost var ts := t.body.trees;
    InsideChildren(t);
    EncodeParts(t);
    AtSplit(sigDer, 0, Header(t), Inside(t));
    ChildrenTile(sigDer, ts, root.contentStart, 0);
    ChildrenTile(sigDer, ts, root.contentStart, 1);
    SliceOfNode(sigDer, ts[0], kids[0].start);
    SliceOfNode(sigDer, ts[1], kids[1].start);
    var r := ToFixed(sigDer[kids[0].contentStart..kids[0].contentEnd], size);
    if r.None? { return None; }
    var s := ToFixed(sigDer[kids[1].contentStart..kids[1].contentEnd], size);
    if s.None? { return None; }
    raw := Some(r.value + s.value);
  }
}
