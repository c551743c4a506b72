/** What the bytes of the hash spell: the padded message and the digest, by value, as sections 5.1.1 and 6.2.2 of FIPS
    180-4 state them. */
module Digest {
  import opened Bytes
  import opened Sha
  import Claim

  /** The padded message of section 5.1.1: the message, a one bit, zeros, its length in bits as a 64-bit big-endian
      number, and no shorter multiple of 64 bytes would do. */
  lemma PadExactly(m: Data)
    requires 8 * |m| < Claim.Pow256(8)
    ensures var p := Pad(m);
      && |p| % 64 == 0 && |m| + 9 <= |p| < |m| + 9 + 64
      && p[..|m|] == m && p[|m|] == 0x80
      && (forall k :: |m| < k < |p| - 8 ==> p[k] == 0)
      && Claim.IntBE(p[|p| - 8..]) == 8 * |m|
  {
    hide BigEndian, Claim.IntBE, Claim.Pow256;
    var p, bits := Pad(m), BigEndian(8 * |m|, 8);
    Claim.BigEndianValue(8 * |m|, 8);
    PadUnfold(m);
    assert p[|p| - 8..] == bits;
  }

  /** The four bytes of a word spell its value. */
  lemma WordSpells(w: Word)
    ensures Claim.IntBE(WordBytes(w)) == w
  {
    var v: nat := w;
    var x, y := v / 0x100, v / 0x100 / 0x100;
    assert v == x * 0x100 + v % 0x100 && x == y * 0x100 + x % 0x100 && y == y / 0x100 * 0x100 + y % 0x100;
    FourBytes(WordBytes(w));
  }

  lemma FourBytes(d: Data)
    requires |d| == 4
    ensures var a: nat, b: nat, c: nat, e: nat := d[0], d[1], d[2], d[3];
      Claim.IntBE(d) == ((a * 256 + b) * 256 + c) * 256 + e
  {
    hide Claim.IntBE;
    assert d[..0] == [] && d[..4] == d;
    NoBytes();
    NextByte(d, 0);
    NextByte(d, 1);
    NextByte(d, 2);
    NextByte(d, 3);
  }

  lemma NoBytes()
    ensures Claim.IntBE([]) == 0
  {
  }

  lemma NextByte(d: Data, k: nat)
    requires k < |d|
    ensures var b: nat := d[k]; Claim.IntBE(d[..k + 1]) == Claim.IntBE(d[..k]) * 256 + b
  {
    assert d[..k + 1][..k] == d[..k];
  }

  /** The digest spells the eight words that absorbing the padded message leaves, in order. */
  lemma DigestSpells(core: Core, m: Data)
    ensures var d := Sha256Of(core, m); var w := Absorb(core, core.iv, Pad(m));
      && Claim.IntBE(d[0..4]) == w.a && Claim.IntBE(d[4..8]) == w.b
      && Claim.IntBE(d[8..12]) == w.c && Claim.IntBE(d[12..16]) == w.d
      && Claim.IntBE(d[16..20]) == w.e && Claim.IntBE(d[20..24]) == w.f
      && Claim.IntBE(d[24..28]) == w.g && Claim.IntBE(d[28..32]) == w.h
  {
    hide Absorb, Pad, WordBytes, Claim.IntBE;
    var d := Sha256Of(core, m);
    var w := Absorb(core, core.iv, Pad(m));
    WordSpells(w.a);
    WordSpells(w.b);
    WordSpells(w.c);
    WordSpells(w.d);
    WordSpells(w.e);
    WordSpells(w.f);
    WordSpells(w.g);
    WordSpells(w.h);
    assert d[0..4] == WordBytes(w.a) && d[4..8] == WordBytes(w.b);
    assert d[8..12] == WordBytes(w.c) && d[12..16] == WordBytes(w.d);
    assert d[16..20] == WordBytes(w.e) && d[20..24] == WordBytes(w.f);
    assert d[24..28] == WordBytes(w.g) && d[28..32] == WordBytes(w.h);
  }
}
