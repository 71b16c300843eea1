/**
 * One chunk of bytes and its group of base62 symbols: the arithmetic the
 * three drivers share. A chunk is read as a big-endian unsigned integer; its
 * group is that integer's base62 digits, most significant first, padded on
 * the left with the alphabet's zero symbol to a fixed width.
 */
module Groups {
  import opened Radix
  import opened Alphabet

  type Byte = b: int | 0 <= b < 256

  /** The overflow bound of the chunk decoders: `2^(8t)` is `256^t`, one more than the largest value of `t` bytes. */
  lemma ByteRange(t: nat)
    ensures Pow(2, t * 8) == Pow(256, t)
  {
    assert Pow(2, 8) == 256;
    PowPow(2, 8, t);
  }

  /** Big-endian value of a chunk (`BigUint::from_bytes_be`, the hex `BigInt`, the shift-or loop). */
  function BytesToNat(bs: seq<Byte>): (n: nat)
    ensures n < Pow(256, |bs|)
  {
    FromDigits(bs, 256)
  }

  /** The `t` low-order bytes of `n`, big-endian, zero-filled on the left. */
  function NatToBytes(n: nat, t: nat): (bs: seq<Byte>)
    ensures |bs| == t
  {
    ToDigits(n, 256, t)
  }

  lemma NatToBytesValue(n: nat, t: nat)
    ensures BytesToNat(NatToBytes(n, t)) == n % Pow(256, t)
  {
    ToDigitsValue(n, 256, t);
  }

  lemma NatToBytesOfValue(bs: seq<Byte>)
    ensures NatToBytes(BytesToNat(bs), |bs|) == bs
  {
    ToDigitsFromDigits(bs, 256);
  }

  lemma ValueOfNatToBytes(n: nat, t: nat)
    requires n < Pow(256, t)
    ensures BytesToNat(NatToBytes(n, t)) == n
  {
    NatToBytesValue(n, t);
    FromDigitsToDigits(n, 256, t);
  }

  /** The reference group of a chunk: exactly `w` base62 digits of its value, spelled in `a`. */
  function EncodeGroup(a: string, bs: seq<Byte>, w: nat): (g: string)
    requires |a| == 62
    ensures |g| == w && Over(g, a)
  {
    Spell(a, ToDigits(BytesToNat(bs), 62, w))
  }

  /** A group's value: `n = n * 62 + index` over its symbols, first symbol most significant. */
  function GroupValue(a: string, g: string): (n: nat)
    requires |a| == 62 && Over(g, a)
    ensures n < Pow(62, |g|)
  {
    FromDigits(Read(a, g), 62)
  }

  /** What the encoders' digit loops build: the significant digits of `n`, left-padded with the zero symbol. */
  function PaddedDigits(a: string, n: nat, w: nat): (g: string)
    requires |a| == 62
    ensures |g| >= w && Over(g, a)
  {
    PadLeft(Spell(a, MinimalDigits(n, 62)), w, a[0])
  }

  /** When the width covers every value of the chunk, padding never truncates and gives the reference group. */
  lemma PaddedDigitsIsGroup(a: string, bs: seq<Byte>, w: nat)
    requires |a| == 62 && Pow(256, |bs|) <= Pow(62, w)
    ensures PaddedDigits(a, BytesToNat(bs), w) == EncodeGroup(a, bs, w)
  {
    var n := BytesToNat(bs);
    SpellPadLeft(a, MinimalDigits(n, 62), w);
    PadMinimalDigits(n, 62, w);
  }

  /** Reading a group back gives the chunk's value. */
  lemma GroupValueOfEncodeGroup(a: string, bs: seq<Byte>, w: nat)
    requires |a| == 62 && Distinct(a) && Pow(256, |bs|) <= Pow(62, w)
    ensures GroupValue(a, EncodeGroup(a, bs, w)) == BytesToNat(bs)
  {
    var n := BytesToNat(bs);
    ReadSpell(a, ToDigits(n, 62, w));
    FromDigitsToDigits(n, 62, w);
  }

  /** The bytes of a group's value re-encode to the same group. */
  lemma EncodeGroupOfValue(a: string, g: string, t: nat)
    requires |a| == 62 && Over(g, a) && GroupValue(a, g) < Pow(256, t)
    ensures EncodeGroup(a, NatToBytes(GroupValue(a, g), t), |g|) == g
  {
    var ds := Read(a, g);
    var n := GroupValue(a, g);
    ValueOfNatToBytes(n, t);
    ToDigitsFromDigits(ds, 62);
    SpellRead(a, g);
  }
}
