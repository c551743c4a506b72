/** The claim a seal proves: tagged-struct digests, and the split of a digest into two field elements. A claim
    digest fixes the image id and the journal, or two inputs of the hash collide. */
module Claim {
  import opened Bytes
  import opened Text
  import Base58

  // ---------------------------------------------------------------------------------------------
  // Tagged structs

  /** The n low bytes of v, least significant first: u32le and u16le. */
  function LittleEndian(v: nat, n: nat): (d: Data)
    ensures |d| == n
  {
    if n == 0 then [] else [v % 256] + LittleEndian(v / 256, n - 1)
  }

  function Concat(parts: seq<Data>): Data {
    if parts == [] then [] else parts[0] + Concat(parts[1..])
  }

  function Words(data: seq<nat>): (d: Data)
    ensures |d| == 4 * |data|
  {
    if data == [] then [] else LittleEndian(data[0], 4) + Words(data[1..])
  }

  function Preimage(h: Hash, tag: Data, down: seq<Data>, data: seq<nat>): Data {
    h.Of(tag) + Concat(down) + Words(data) + LittleEndian(|down|, 2)
  }

  function TaggedStruct(h: Hash, tag: Data, down: seq<Data>, data: seq<nat>): Data {
    h.Of(Preimage(h, tag, down, data))
  }

  predicate Digests(down: seq<Data>) {
    |down| < 0x10000 && forall i :: 0 <= i < |down| ==> |down[i]| == 32
  }

  predicate Uint32s(data: seq<nat>) {
    forall i :: 0 <= i < |data| ==> data[i] < 0x1_0000_0000
  }

  lemma {:induction false} LittleEndianInjective(v: nat, w: nat, n: nat)
    requires LittleEndian(v, n) == LittleEndian(w, n) && v < Pow256(n) && w < Pow256(n)
    ensures v == w
    decreases n
  {
    if n > 0 {
      SplitConcat([v % 256], LittleEndian(v / 256, n - 1), [w % 256], LittleEndian(w / 256, n - 1));
      assert [v % 256][0] == [w % 256][0];
      LittleEndianInjective(v / 256, w / 256, n - 1);
    }
  }

  function Pow256(n: nat): nat { if n == 0 then 1 else 256 * Pow256(n - 1) }

  lemma {:induction false} WordsInjective(d: seq<nat>, e: seq<nat>)
    requires Uint32s(d) && Uint32s(e) && Words(d) == Words(e)
    ensures d == e
  {
    assert |d| == |e|;
    if d != [] {
      SplitConcat(LittleEndian(d[0], 4), Words(d[1..]), LittleEndian(e[0], 4), Words(e[1..]));
      assert Pow256(4) == 256 * (256 * Pow256(2)) == 0x1_0000_0000;
      LittleEndianInjective(d[0], e[0], 4);
      WordsInjective(d[1..], e[1..]);
      assert d == [d[0]] + d[1..] && e == [e[0]] + e[1..];
    }
  }

  lemma {:induction false} ConcatLength(down: seq<Data>)
    requires Digests(down)
    ensures |Concat(down)| == 32 * |down|
  {
    if down != [] { ConcatLength(down[1..]); }
  }

  lemma {:induction false} ConcatInjective(a: seq<Data>, b: seq<Data>)
    requires Digests(a) && Digests(b) && |a| == |b| && Concat(a) == Concat(b)
    ensures a == b
  {
    if a != [] {
      SplitConcat(a[0], Concat(a[1..]), b[0], Concat(b[1..]));
      ConcatInjective(a[1..], b[1..]);
      assert a == [a[0]] + a[1..] && b == [b[0]] + b[1..];
    }
  }

  /** The layout decodes in one way: the count at the end says where the digests stop and the words begin. */
  lemma PreimageUnique(h: Hash, tag: Data, down: seq<Data>, data: seq<nat>,
                       tag': Data, down': seq<Data>, data': seq<nat>)
    requires Digests(down) && Digests(down') && Uint32s(data) && Uint32s(data')
    requires Preimage(h, tag, down, data) == Preimage(h, tag', down', data')
    ensures h.Of(tag) == h.Of(tag') && down == down' && data == data'
  {
    hide LittleEndian, Words, Concat;
    var p, q := h.Of(tag) + Concat(down) + Words(data), h.Of(tag') + Concat(down') + Words(data');
    assert |p| == |q|;
    SplitConcat(p, LittleEndian(|down|, 2), q, LittleEndian(|down'|, 2));
    assert Pow256(2) == 0x10000;
    LittleEndianInjective(|down|, |down'|, 2);
    ConcatLength(down);
    ConcatLength(down');
    SplitConcat(h.Of(tag) + Concat(down), Words(data), h.Of(tag') + Concat(down'), Words(data'));
    SplitConcat(h.Of(tag), Concat(down), h.Of(tag'), Concat(down'));
    ConcatInjective(down, down');
    WordsInjective(data, data');
  }

  /** Equal tagged structs have equal fields, or the returned byte strings collide. */
  lemma TaggedStructBinding(h: Hash, tag: Data, down: seq<Data>, data: seq<nat>,
                       tag': Data, down': seq<Data>, data': seq<nat>)
    returns (a: Data, b: Data)
    requires Digests(down) && Digests(down') && Uint32s(data) && Uint32s(data')
    requires TaggedStruct(h, tag, down, data) == TaggedStruct(h, tag', down', data')
    ensures (tag == tag' && down == down' && data == data') || Collision(h, a, b)
  {
    hide Preimage;
    a, b := Preimage(h, tag, down, data), Preimage(h, tag', down', data');
    if a == b {
      PreimageUnique(h, tag, down, data, tag', down', data');
      a, b := tag, tag';
    }
  }

  // ---------------------------------------------------------------------------------------------
  // The claim digest

  /** risc0.SystemState, risc0.Output and risc0.ReceiptClaim. */
  const STATE_TAG: Data := [114, 105, 115, 99, 48, 46, 83, 121, 115, 116, 101, 109, 83, 116, 97, 116, 101]
  const OUTPUT_TAG: Data := [114, 105, 115, 99, 48, 46, 79, 117, 116, 112, 117, 116]
  const CLAIM_TAG: Data := [114, 105, 115, 99, 48, 46, 82, 101, 99, 101, 105, 112, 116, 67, 108, 97, 105, 109]

  function Zero32(): (d: Data)
    ensures |d| == 32
  {
    seq(32, i => 0)
  }

  function OutputDigest(h: Hash, journal: Data): Data {
    TaggedStruct(h, OUTPUT_TAG, [h.Of(journal), Zero32()], [])
  }

  function ClaimDigestOk(h: Hash, imageId: Data, journal: Data): (d: Data)
    ensures |d| == 32
  {
    var post := TaggedStruct(h, STATE_TAG, [Zero32()], [0]);
    TaggedStruct(h, CLAIM_TAG, [Zero32(), imageId, post, OutputDigest(h, journal)], [0, 0])
  }

  /** The claim digest written out: each hash over the digest of its tag, the digests below it, the words, and the
      number of digests in two bytes. */
  lemma ClaimDigestBytes(h: Hash, imageId: Data, journal: Data)
    ensures ClaimDigestOk(h, imageId, journal) ==
      var zeros: Data := seq(32, i => 0);
      var post := h.Of(h.Of(STATE_TAG) + zeros + [0, 0, 0, 0] + [1, 0]);
      var output := h.Of(h.Of(OUTPUT_TAG) + h.Of(journal) + zeros + [2, 0]);
      h.Of(h.Of(CLAIM_TAG) + zeros + imageId + post + output + [0, 0, 0, 0, 0, 0, 0, 0] + [4, 0])
  {
    hide *;
    var zeros := Zero32();
    ZerosAre();
    var out := [h.Of(journal), zeros];
    OneDown(h, STATE_TAG, zeros);
    TwoDown(h, OUTPUT_TAG, h.Of(journal), zeros);
    var post, output := TaggedStruct(h, STATE_TAG, [zeros], [0]), TaggedStruct(h, OUTPUT_TAG, out, []);
    ClaimIs(h, imageId, journal);
    FourDown(h, CLAIM_TAG, zeros, imageId, post, output);
  }

  lemma ZerosAre()
    ensures Zero32() == seq(32, i => 0)
  {
  }

  lemma ClaimIs(h: Hash, imageId: Data, journal: Data)
    ensures ClaimDigestOk(h, imageId, journal) ==
      TaggedStruct(h, CLAIM_TAG, [Zero32(), imageId, TaggedStruct(h, STATE_TAG, [Zero32()], [0]),
                                  TaggedStruct(h, OUTPUT_TAG, [h.Of(journal), Zero32()], [])], [0, 0])
  {
    hide TaggedStruct, Zero32;
  }

  lemma OneDown(h: Hash, tag: Data, a: Data)
    ensures TaggedStruct(h, tag, [a], [0]) == h.Of(h.Of(tag) + a + [0, 0, 0, 0] + [1, 0])
  {
    hide Concat, Words, LittleEndian;
    SmallWords();
    ConcatOf([a], a, []);
    ConcatOf([], [], []);
    assert a + [] == a;
    assert Preimage(h, tag, [a], [0]) == h.Of(tag) + a + [0, 0, 0, 0] + [1, 0];
  }

  lemma TwoDown(h: Hash, tag: Data, a: Data, b: Data)
    ensures TaggedStruct(h, tag, [a, b], []) == h.Of(h.Of(tag) + a + b + [2, 0])
  {
    hide Concat, Words, LittleEndian;
    SmallWords();
    ConcatOf([a, b], a, [b]);
    ConcatOf([b], b, []);
    ConcatOf([], [], []);
    assert Preimage(h, tag, [a, b], []) == h.Of(tag) + a + b + [2, 0];
  }

  lemma FourDown(h: Hash, tag: Data, a: Data, b: Data, c: Data, d: Data)
    ensures TaggedStruct(h, tag, [a, b, c, d], [0, 0]) ==
      h.Of(h.Of(tag) + a + b + c + d + [0, 0, 0, 0, 0, 0, 0, 0] + [4, 0])
  {
    hide *;
    SmallWords();
    ConcatOf([a, b, c, d], a, [b, c, d]);
    ConcatOf([b, c, d], b, [c, d]);
    ConcatOf([c, d], c, [d]);
    ConcatOf([d], d, []);
    ConcatOf([], [], []);
    TaggedIs(h, tag, [a, b, c, d], [0, 0]);
    Flatten(h.Of(tag), a, b, c, d);
  }

  lemma TaggedIs(h: Hash, tag: Data, down: seq<Data>, data: seq<nat>)
    ensures TaggedStruct(h, tag, down, data) ==
      h.Of(h.Of(tag) + Concat(down) + Words(data) + LittleEndian(|down|, 2))
  {
  }

  lemma Flatten(t: Data, a: Data, b: Data, c: Data, d: Data)
    ensures t + (a + (b + (c + (d + [])))) == t + a + b + c + d
  {
  }

  lemma ConcatOf(parts: seq<Data>, head: Data, tail: seq<Data>)
    requires parts == if parts == [] then [] else [head] + tail
    ensures Concat(parts) == if parts == [] then [] else head + Concat(tail)
  {
    if parts != [] { assert parts[1..] == tail; }
  }

  lemma SmallWords()
    ensures LittleEndian(1, 2) == [1, 0] && LittleEndian(2, 2) == [2, 0] && LittleEndian(4, 2) == [4, 0]
    ensures Words([]) == [] && Words([0]) == [0, 0, 0, 0] && Words([0, 0]) == [0, 0, 0, 0, 0, 0, 0, 0]
  {
    assert LittleEndian(0, 4) == [0, 0, 0, 0];
    assert [0][1..] == [] && [0, 0][1..] == [0];
  }

  /** The tags are the ASCII bytes of their names. */
  lemma TagsSpelled()
    ensures STATE_TAG == Lit("risc0.SystemState") && OUTPUT_TAG == Lit("risc0.Output")
    ensures CLAIM_TAG == Lit("risc0.ReceiptClaim")
  {
  }

  /** A claim digest fixes the image id and the journal bytes, or the returned byte strings collide. */
  lemma ClaimBinding(h: Hash, id: Data, journal: Data, id': Data, journal': Data) returns (a: Data, b: Data)
    requires |id| == 32 && |id'| == 32 && ClaimDigestOk(h, id, journal) == ClaimDigestOk(h, id', journal')
    ensures (id == id' && journal == journal') || Collision(h, a, b)
  {
    hide TaggedStruct, OutputDigest;
    var post := TaggedStruct(h, STATE_TAG, [Zero32()], [0]);
    var out, out' := OutputDigest(h, journal), OutputDigest(h, journal');
    var down, down' := [Zero32(), id, post, out], [Zero32(), id', post, out'];
    TaggedLength(h, STATE_TAG, [Zero32()], [0]);
    OutputLength(h, journal);
    OutputLength(h, journal');
    a, b := TaggedStructBinding(h, CLAIM_TAG, down, [0, 0], CLAIM_TAG, down', [0, 0]);
    if !Collision(h, a, b) {
      assert down[1] == down'[1] && down[3] == down'[3];
      a, b := OutputBinding(h, journal, journal');
    }
  }

  lemma TaggedLength(h: Hash, tag: Data, down: seq<Data>, data: seq<nat>)
    ensures |TaggedStruct(h, tag, down, data)| == 32
  {
  }

  lemma OutputLength(h: Hash, journal: Data)
    ensures |OutputDigest(h, journal)| == 32
  {
  }

  lemma OutputBinding(h: Hash, journal: Data, journal': Data) returns (a: Data, b: Data)
    requires OutputDigest(h, journal) == OutputDigest(h, journal')
    ensures journal == journal' || Collision(h, a, b)
  {
    hide TaggedStruct;
    var down, down' := [h.Of(journal), Zero32()], [h.Of(journal'), Zero32()];
    a, b := TaggedStructBinding(h, OUTPUT_TAG, down, [], OUTPUT_TAG, down', []);
    if !Collision(h, a, b) {
      assert down[0] == down'[0];
      a, b := journal, journal';
    }
  }

  // ---------------------------------------------------------------------------------------------
  // The split into two field elements

  function IntBE(b: Data): nat { Base58.BigEndian(b, 256) }

  function Reversed(b: Data): (r: Data)
    ensures |r| == |b|
  {
    seq(|b|, i requires 0 <= i < |b| => b[|b| - 1 - i])
  }

  function IntLE(b: Data): nat { IntBE(Reversed(b)) }

  /** splitDigest: the low and the high half of the little-endian value. */
  function SplitDigest(d: Data): (nat, nat)
    requires |d| == 32
  {
    var be := Reversed(d);
    (IntBE(be[16..32]), IntBE(be[0..16]))
  }

  lemma {:induction false} IntBEBound(b: Data)
    ensures IntBE(b) < Pow256(|b|)
  {
    if b != [] { IntBEBound(b[..|b| - 1]); }
  }

  /** The big-endian form is the inverse of the big-endian value. */
  lemma {:induction false} BigEndianValue(v: nat, n: nat)
    requires v < Pow256(n)
    ensures IntBE(BigEndian(v, n)) == v
    decreases n
  {
    if n > 0 {
      BigEndianValue(v / 256, n - 1);
      var init := BigEndian(v / 256, n - 1);
      assert (init + [v % 256])[..n - 1] == init;
    }
  }

  lemma {:induction false} IntBEConcat(x: Data, y: Data)
    ensures IntBE(x + y) == IntBE(x) * Pow256(|y|) + IntBE(y)
    decreases |y|
  {
    if y == [] {
      assert x + y == x;
    } else {
      var init := y[..|y| - 1];
      assert (x + y)[..|x + y| - 1] == x + init;
      IntBEConcat(x, init);
      assert (IntBE(x) * Pow256(|init|)) * 256 == IntBE(x) * Pow256(|y|);
    }
  }

  lemma {:induction false} IntBEInjective(x: Data, y: Data)
    requires |x| == |y| && IntBE(x) == IntBE(y)
    ensures x == y
  {
    if x != [] {
      var p, q := x[..|x| - 1], y[..|y| - 1];
      assert IntBE(p) == IntBE(q) && x[|x| - 1] == y[|y| - 1];
      IntBEInjective(p, q);
      assert x == p + [x[|x| - 1]] && y == q + [y[|y| - 1]];
    }
  }

  /** low + 2^128 high is the little-endian value of the digest, and both halves are below 2^128. */
  lemma SplitDigestValue(d: Data)
    requires |d| == 32
    ensures var (low, high) := SplitDigest(d);
      low + Pow256(16) * high == IntLE(d) && low < Pow256(16) && high < Pow256(16)
  {
    hide IntBE, Pow256;
    var be := Reversed(d);
    assert be == be[0..16] + be[16..32];
    IntBEConcat(be[0..16], be[16..32]);
    IntBEBound(be[0..16]);
    IntBEBound(be[16..32]);
    assert IntBE(be[0..16]) * Pow256(16) == Pow256(16) * IntBE(be[0..16]);
  }

  /** The two halves give the digest back. */
  lemma SplitDigestInjective(d: Data, e: Data)
    requires |d| == 32 && |e| == 32 && SplitDigest(d) == SplitDigest(e)
    ensures d == e
  {
    hide IntBE;
    var p, q := Reversed(d), Reversed(e);
    IntBEInjective(p[16..32], q[16..32]);
    IntBEInjective(p[0..16], q[0..16]);
    assert p == p[0..16] + p[16..32] && q == q[0..16] + q[16..32];
    forall i | 0 <= i < 32 ensures d[i] == e[i] {
      assert d[i] == p[31 - i] && e[i] == q[31 - i];
    }
  }

  lemma TwoTo128()
    ensures Pow256(16) == 0x1_0000_0000_0000_0000_0000_0000_0000_0000
  {
    assert Pow256(4) == 256 * (256 * Pow256(2)) && Pow256(8) == 256 * (256 * (256 * (256 * Pow256(4))));
    assert Pow256(12) == 256 * (256 * (256 * (256 * Pow256(8))));
    assert Pow256(16) == 256 * (256 * (256 * (256 * Pow256(12))));
  }
}
