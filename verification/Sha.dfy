/** The bundled buffered SHA-256: a class that takes its message in pieces, against the padded one-shot hash
    of FIPS 180-4. The compression function and the initial words are parameters. */
module Sha {
  import opened Bytes

  type Word = w: nat | w < 0x1_0000_0000

  datatype Words = Words(a: Word, b: Word, c: Word, d: Word, e: Word, f: Word, g: Word, h: Word)

  datatype Core = Core(iv: Words, compress: (Words, Data) -> Words)

  // ---------------------------------------------------------------------------------------------
  // One shot (sections 5.1.1 and 6.2.2 of FIPS 180-4)

  function Absorb(core: Core, w: Words, data: Data): Words
    requires |data| % 64 == 0
    decreases |data|
  {
    if data == [] then w else Absorb(core, core.compress(w, data[..64]), data[64..])
  }

  function WordBytes(w: Word): (d: Data)
    ensures |d| == 4
  {
    [w / 0x100 / 0x100 / 0x100, w / 0x100 / 0x100 % 0x100, w / 0x100 % 0x100, w % 0x100]
  }

  function Serialize(w: Words): (d: Data)
    ensures |d| == 32
  {
    WordBytes(w.a) + WordBytes(w.b) + WordBytes(w.c) + WordBytes(w.d)
    + WordBytes(w.e) + WordBytes(w.f) + WordBytes(w.g) + WordBytes(w.h)
  }

  function Zeros(n: nat): (d: Data)
    ensures |d| == n && forall i :: 0 <= i < n ==> d[i] == 0
  {
    seq(n, i => 0)
  }

  /** The message, a one bit, the fewest zeros that reach 56 modulo 64, and the bit length in 64 bits. */
  function Pad(m: Data): (p: Data)
    ensures |p| % 64 == 0
  {
    MultipleOf64(|m|);
    m + [128] + Zeros(PadZeros(|m|)) + BigEndian(8 * |m|, 8)
  }

  function PadZeros(n: nat): (z: nat)
    ensures z < 64
  {
    if n % 64 < 56 then 55 - n % 64 else 119 - n % 64
  }

  lemma MultipleOf64(n: nat)
    ensures (n + 1 + PadZeros(n) + 8) % 64 == 0
  {
    assert n == 64 * (n / 64) + n % 64;
  }

  function Sha256Of(core: Core, m: Data): (d: Data)
    ensures |d| == 32
  {
    Serialize(Absorb(core, core.iv, Pad(m)))
  }

  /** The one-shot hash, as a hash in the sense of the binding theorems. */
  function AsHash(core: Core): Hash {
    Hash(m => Sha256Of(core, m))
  }

  lemma AsHashIsSha256(core: Core, m: Data)
    ensures AsHash(core).Of(m) == Sha256Of(core, m)
  {
  }

  /** A piece joins the part of the message that is not yet absorbed, from start on. */
  lemma PieceParts(m: Data, piece: Data, start: nat)
    requires start <= |m|
    ensures (m + piece)[start..] == m[start..] + piece && (m + piece)[..start] == m[..start]
    ensures m[..start] + (m + piece)[start..] == m + piece
    ensures (m + piece)[..|m + piece|] == m + piece && (m + piece)[|m + piece|..] == []
  {
  }

  lemma Feed(m: Data, t: Data, from: nat, to: nat)
    requires from <= to <= |t|
    ensures m + t[..to] == (m + t[..from]) + t[from..to]
  {
    assert t[..to] == t[..from] + t[from..to];
  }

  lemma {:induction false} AbsorbAppend(core: Core, w: Words, x: Data, y: Data)
    requires |x| % 64 == 0 && |y| % 64 == 0
    ensures Absorb(core, w, x + y) == Absorb(core, Absorb(core, w, x), y)
    decreases |x|
  {
    if x == [] {
      assert x + y == y;
    } else {
      assert (x + y)[..64] == x[..64] && (x + y)[64..] == x[64..] + y;
      AbsorbAppend(core, core.compress(w, x[..64]), x[64..], y);
    }
  }

  lemma AbsorbBlock(core: Core, w: Words, x: Data, block: Data)
    requires |x| % 64 == 0 && |block| == 64
    ensures Absorb(core, w, x + block) == core.compress(Absorb(core, w, x), block)
  {
    AbsorbAppend(core, w, x, block);
    assert block[..64] == block && block[64..] == [];
  }

  // ---------------------------------------------------------------------------------------------
  // The class

  class Sha256 {
    const core: Core
    const buffer: array<Byte>
    var words: Words
    var pos: nat
    var length: nat
    var finished: bool
    var destroyed: bool
    /** Everything fed to update so far. */
    ghost var message: Data

    /** Whole blocks of m are in words, the rest of m opens the buffer. */
    ghost predicate Holds(m: Data)
      reads this, buffer
    {
      && buffer.Length == 64
      && pos < 64 && pos == |m| % 64
      && words == Absorb(core, core.iv, m[..|m| - pos])
      && buffer[..pos] == m[|m| - pos..]
    }

    predicate Open()
      reads this
    {
      !finished && !destroyed
    }

    ghost predicate Valid()
      reads this, buffer
    {
      buffer.Length == 64 && (Open() ==> Holds(message) && length == |message|)
    }

    constructor (core: Core)
      ensures Valid() && Open() && message == [] && this.core == core && fresh(buffer) && buffer.Length == 64
    {
      this.core := core;
      buffer := new Byte[64](i => 0);
      words := core.iv;
      pos, length, finished, destroyed := 0, 0, false, false;
      message := [];
    }

    /** process(view, offset), on the 64 bytes at the offset. */
    method Process(block: Data)
      requires |block| == 64
      modifies this`words
      ensures words == core.compress(old(words), block)
    {
      words := core.compress(words, block);
    }

    /** False stands for the exception on a finished or destroyed instance. */
    method Update(t: Data) returns (ok: bool)
      requires Valid()
      modifies this, buffer
      ensures Valid() && ok == old(Open())
      ensures Open() == old(Open())
      ensures message == if ok then old(message) + t else old(message)
    {
      hide Absorb;
      if destroyed || finished { return false; }
      var i: nat := 0;
      ghost var fed := message;
      while i < |t|
        invariant i <= |t| && Open() && Holds(fed) && fed == message + t[..i]
        invariant message == old(message) && length == old(length)
      {
        var from := i;
        var c := if 64 - pos < |t| - i then 64 - pos else |t| - i;
        if c == 64 {
          i := Bulk(t, i, fed);
        } else {
          Fill(t[i..i + c], fed);
          i := i + c;
        }
        Feed(old(message), t, from, i);
        fed := fed + t[from..i];
      }
      length := length + |t|;
      message := fed;
      ok := true;
      assert t[..|t|] == t;
    }

    /** The inner loop of update: whole blocks straight from the input. */
    method Bulk(t: Data, from: nat, ghost m: Data) returns (i: nat)
      requires from < |t| && |t| - from >= 64 && pos == 0 && Holds(m)
      modifies this`words
      ensures from < i <= |t| && |t| - i < 64 && Holds(m + t[from..i])
    {
      hide Absorb;
      i := from;
      assert m + t[from..from] == m;
      while 64 <= |t| - i
        invariant from <= i <= |t| && Holds(m + t[from..i])
      {
        TakeBlock(m + t[from..i], t[i..i + 64]);
        assert m + t[from..i + 64] == m + t[from..i] + t[i..i + 64];
        Process(t[i..i + 64]);
        i := i + 64;
      }
    }

    lemma TakeBlock(m: Data, block: Data)
      requires Holds(m) && pos == 0 && |block| == 64
      ensures core.compress(words, block) == Absorb(core, core.iv, (m + block)[..|m| + 64])
    {
      assert m[..|m|] == m && (m + block)[..|m| + 64] == m + block;
      AbsorbBlock(core, core.iv, m, block);
    }

    /** Copies a piece to the buffer, and processes the buffer when that fills it. */
    method Fill(piece: Data, ghost m: Data)
      requires Holds(m) && pos + |piece| <= 64 && piece != []
      modifies this`words, this`pos, buffer
      ensures Holds(m + piece)
    {
      hide Absorb;
      ghost var start := |m| - pos;
      Copy(piece);
      PieceParts(m, piece, start);
      pos := pos + |piece|;
      if pos == 64 {
        assert buffer[..] == (m + piece)[start..];
        AbsorbBlock(core, core.iv, m[..start], buffer[..]);
        Process(buffer[..]);
        pos := 0;
      }
    }

    method Copy(piece: Data)
      requires buffer.Length == 64 && pos + |piece| <= 64
      modifies buffer
      ensures buffer[..pos + |piece|] == old(buffer[..pos]) + piece
    {
      forall k | 0 <= k < |piece| {
        buffer[pos + k] := piece[k];
      }
    }

    /** The one bit and the zeros after it; when the length no longer fits, that block goes first. */
    method OpenPadding(ghost whole: Data, ghost tail: Data) returns (i: nat)
      requires buffer.Length == 64 && pos < 64 && |whole| % 64 == 0 && buffer[..pos] == tail
      requires words == Absorb(core, core.iv, whole)
      modifies this`words, buffer
      ensures pos < 56 ==> i == pos + 1 && words == old(words) && buffer[..i] == tail + [128]
      ensures pos >= 56 ==> i == 0 && words == Absorb(core, core.iv, whole + (tail + [128] + Zeros(63 - pos)))
    {
      hide Absorb;
      i := pos + 1;
      buffer[pos] := 128;
      forall k | i <= k < 64 { buffer[k] := 0; }
      if 8 > 64 - i {
        assert buffer[..] == tail + [128] + Zeros(64 - i);
        AbsorbBlock(core, core.iv, whole, buffer[..]);
        Process(buffer[..]);
        i := 0;
      }
    }

    /** digestInto, up to the words it serializes: None stands for the exception. */
    method DigestInto() returns (out: Option<Data>)
      requires Valid()
      modifies this`finished, this`words, buffer
      ensures old(Open()) <==> out.Some?
      ensures out.Some? ==> out.value == Sha256Of(core, message) && !Open()
      ensures out.None? ==> words == old(words) && finished == old(finished) && buffer[..] == old(buffer[..])
    {
      hide Absorb, BigEndian, Pad, Serialize;
      if destroyed || finished { return None; }
      finished := true;
      ghost var whole, tail := message[..|message| - pos], message[|message| - pos..];
      assert message == whole + tail;
      var i := OpenPadding(whole, tail);
      ghost var absorbed := if i == 0 then whole + (tail + [128] + Zeros(63 - pos)) else whole;
      ghost var opening := buffer[..i];
      forall k | i <= k < 64 { buffer[k] := 0; }
      var bits := BigEndian(length * 8, 8);
      forall k | 0 <= k < 8 { buffer[56 + k] := bits[k]; }
      assert buffer[..] == opening + Zeros(56 - i) + bits;
      assert i == 0 ==> opening + Zeros(56 - i) == Zeros(56);
      PadSplit(whole, tail);
      AbsorbBlock(core, core.iv, absorbed, buffer[..]);
      Process(buffer[..]);
      out := Some(Serialize(words));
    }

    method Digest() returns (out: Option<Data>)
      requires Valid()
      modifies this, buffer
      ensures old(Open()) <==> out.Some?
      ensures out.Some? ==> out.value == Sha256Of(core, old(message))
      ensures Valid() && !Open()
    {
      out := DigestInto();
      if out.Some? { destroyed := true; }
    }

    /** A clone has its own buffer, so that neither instance can change what the other will digest. */
    method Clone() returns (to: Sha256)
      requires Valid()
      ensures fresh(to) && fresh(to.buffer) && to.core == core
      ensures to.Valid() && to.Open() == Open() && to.message == message
    {
      to := new Sha256(core);
      to.Take(this);
    }

    /** The assignments of a clone; the buffer is copied only when it holds part of a block. */
    method Take(from: Sha256)
      requires from != this && from.buffer != buffer && from.Valid() && from.core == core && buffer.Length == 64
      modifies this, buffer
      ensures Valid() && Open() == from.Open() && message == from.message
    {
      hide Absorb;
      words := from.words;
      destroyed, finished, length, pos := from.destroyed, from.finished, from.length, from.pos;
      if length % 64 != 0 {
        forall k | 0 <= k < 64 { buffer[k] := from.buffer[k]; }
      }
      message := from.message;
      assert Open() ==> buffer[..pos] == from.buffer[..pos];
    }
  }

  /** Both padding branches: the buffered tail, the one bit and the length fill one block or two. */
  lemma PadSplit(whole: Data, tail: Data)
    requires |whole| % 64 == 0 && |tail| < 64
    ensures Pad(whole + tail) ==
      var bits := BigEndian(8 * |whole + tail|, 8);
      if |tail| < 56 then whole + (tail + [128] + Zeros(55 - |tail|) + bits)
      else whole + (tail + [128] + Zeros(63 - |tail|)) + (Zeros(56) + bits)
  {
    hide *;
    PadUnfold(whole + tail);
    PadZerosOf(|whole|, |tail|);
    if |tail| < 56 { OneBlock(whole, tail); } else { TwoBlocks(whole, tail); }
  }

  lemma OneBlock(whole: Data, tail: Data)
    requires |tail| < 56
    ensures var bits := BigEndian(8 * |whole + tail|, 8);
      whole + tail + [128] + Zeros(55 - |tail|) + bits == whole + (tail + [128] + Zeros(55 - |tail|) + bits)
  {
    hide *;
    Regroup(whole, tail, [128], Zeros(55 - |tail|), [], BigEndian(8 * |whole + tail|, 8));
  }

  lemma TwoBlocks(whole: Data, tail: Data)
    requires 56 <= |tail| < 64
    ensures var bits := BigEndian(8 * |whole + tail|, 8);
      whole + tail + [128] + Zeros(119 - |tail|) + bits
      == whole + (tail + [128] + Zeros(63 - |tail|)) + (Zeros(56) + bits)
  {
    hide *;
    ZerosSplit(63 - |tail|, 56);
    Regroup(whole, tail, [128], Zeros(63 - |tail|), Zeros(56), BigEndian(8 * |whole + tail|, 8));
  }

  lemma PadUnfold(m: Data)
    ensures Pad(m) == m + [128] + Zeros(PadZeros(|m|)) + BigEndian(8 * |m|, 8)
  {
  }

  lemma PadZerosOf(whole: nat, tail: nat)
    requires whole % 64 == 0 && tail < 64
    ensures PadZeros(whole + tail) == if tail < 56 then 55 - tail else 119 - tail
  {
    assert (whole + tail) % 64 == tail;
  }

  lemma ZerosSplit(a: nat, b: nat)
    ensures Zeros(a + b) == Zeros(a) + Zeros(b)
  {
  }

  lemma Regroup(a: Data, b: Data, c: Data, d: Data, e: Data, f: Data)
    ensures a + b + c + (d + e) + f == a + (b + c + d) + (e + f)
    ensures e == [] ==> a + b + c + d + f == a + (b + c + d + f)
  {
  }

  /** sha256(message): one instance, one update, one digest. */
  method OneShot(core: Core, m: Data) returns (d: Data)
    ensures d == Sha256Of(core, m)
  {
    var s := new Sha256(core);
    var ok := s.Update(m);
    assert [] + m == m;
    var out := s.Digest();
    d := out.value;
  }
}
