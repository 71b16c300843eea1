/**
 * The Rust port: the "base64" alphabet, any buffer length. The encoder cuts
 * the buffer into 32-byte chunks and one shorter remainder; each chunk of
 * `c` bytes becomes exactly `M(c)` symbols. The decoder cuts the text into
 * groups of `MAX_CHUNK = 43` symbols and one shorter remainder, and a
 * remainder whose length is not an entry of `M` is refused.
 */
module RustCodec {
  import opened Radix
  import opened Alphabet
  import opened Outcomes
  import opened Widths
  import opened Groups

  // ---------------------------------------------------------------- encoder

  /** `_array_buffer_to_base62`: the value's digits (pushed least significant first, then reversed), padded with 'A' to `M[c]`. */
  function EncodeChunk(buffer: seq<Byte>): (g: string)
    requires 1 <= |buffer| <= N
    ensures |g| == Width(|buffer|) && Over(g, B64)
  {
    WidthIsLeast(|buffer|);
    PaddedDigitsIsGroup(B64, buffer, Width(|buffer|));
    PadLeft(Spell(B64, MinimalDigits(BytesToNat(buffer), 62)), Width(|buffer|), 'A')
  }

  /** No digit is dropped: a chunk's group is exactly `M[c]` base62 digits of its value. */
  lemma EncodeChunkIsGroup(buffer: seq<Byte>)
    requires 1 <= |buffer| <= N
    ensures EncodeChunk(buffer) == EncodeGroup(B64, buffer, Width(|buffer|))
  {
    WidthIsLeast(|buffer|);
    B64IsAlphabet();
    PaddedDigitsIsGroup(B64, buffer, Width(|buffer|));
  }

  /** Characters the encoder writes for `L` bytes: `M(32)` per full chunk and `M(r)` for a remainder of `r`. */
  function EncodedLength(L: nat): nat {
    L / 32 * 43 + (if L % 32 == 0 then 0 else Width(L % 32))
  }

  /** Taking one full chunk or group of `m` off a length of at least `m`. */
  lemma DivModStep(L: nat, m: nat)
    requires L >= m > 0
    ensures L / m == (L - m) / m + 1 && L % m == (L - m) % m
  {
    DivModUnique(L, m, (L - m) / m + 1, (L - m) % m);
  }

  /** The first chunk's group followed by the rest's encoding is the encoded length. */
  lemma EncodedLengthStep(L: nat)
    requires L >= 1
    ensures EncodedLength(L) == Width(Min(L, 32)) + EncodedLength(L - Min(L, 32))
  {
    if L >= 32 {
      DivModStep(L, 32);
    } else {
      DivModUnique(L, 32, 0, L);
    }
  }

  /** `array_buffer_to_base62`: chunks of `min(len - i, 32)` bytes, their groups concatenated in order. */
  function Encode(b: seq<Byte>): (s: string)
    ensures Over(s, B64)
    decreases |b|
  {
    if |b| == 0 then ""
    else
      var c := Min(|b|, N);
      EncodeChunk(b[..c]) + Encode(b[c..])
  }

  /** The encoder writes exactly `EncodedLength` characters: no chunk's group is shortened or lengthened. */
  lemma {:induction false} EncodeLength(b: seq<Byte>)
    ensures |Encode(b)| == EncodedLength(|b|)
    decreases |b|
  {
    if |b| > 0 {
      EncodedLengthStep(|b|);
      EncodeLength(b[Min(|b|, N)..]);
    }
  }

  /** The encoding of a buffer is the group of its first chunk followed by the encoding of the rest. */
  lemma EncodeUncons(b: seq<Byte>)
    requires |b| > 0
    ensures Encode(b) == EncodeChunk(b[..Min(|b|, N)]) + Encode(b[Min(|b|, N)..])
  {
  }

  /** Each full chunk is 32 bytes, and the last chunk is 1 to 32 bytes. */
  lemma EncodeOfFullChunk(x: seq<Byte>, y: seq<Byte>)
    requires |x| == N
    ensures Encode(x + y) == EncodeChunk(x) + Encode(y)
  {
    assert (x + y)[..N] == x && (x + y)[N..] == y;
  }

  // ---------------------------------------------------------------- decoder

  /** `n.to_bytes_be()`: the significant bytes of `n`, most significant first; zero gives a single zero byte. */
  function BigEndianBytes(n: nat): (bs: seq<Byte>)
    ensures |bs| >= 1
  {
    if n == 0 then [0] else MinimalDigits(n, 256)
  }

  /** The significant bytes of a value of `t >= 1` bytes fit in `t`, and written from the right into `t` zeros they give its `t`-byte form. */
  lemma PlacedBytes(n: nat, t: nat)
    requires t >= 1 && n < Pow(256, t)
    ensures |BigEndianBytes(n)| <= t
    ensures PadLeft(BigEndianBytes(n), t, 0) == NatToBytes(n, t)
  {
    MinimalDigitsFit(n, 256, t);
    PadMinimalDigits(n, 256, t);
    if n == 0 {
      assert PadLeft([0], t, 0) == PadLeft([], t, 0);
    }
  }

  /**
   * `_base62_to_array_buffer`: a character outside the alphabet is refused;
   * so is a value above `2^(8t) - 1`; otherwise the value's bytes are copied
   * to the right end of a `t`-byte zero buffer. The source indexes that
   * buffer at `t - 1`, so it needs `t >= 1`.
   */
  function DecodeChunk(s: string, t: nat): (r: Result<seq<Byte>>)
    requires t >= 1
    ensures r.Failure? <==> !Over(s, B64) || GroupValue(B64, s) >= Pow(256, t)
    ensures r.Failure? ==> r.error == (if Over(s, B64) then Overflow else UnknownDigit)
    ensures r.Success? ==> |r.value| == t
  {
    if !Over(s, B64) then Failure(UnknownDigit)
    else
      var n := GroupValue(B64, s);
      ByteRange(t);
      if n > Pow(2, t * 8) - 1 then Failure(Overflow)
      else
        PlacedBytes(n, t);
        Success(PadLeft(BigEndianBytes(n), t, 0))
  }

  /** An accepted group decodes to the `t`-byte big-endian form of its value. */
  lemma DecodeChunkIsBytes(s: string, t: nat)
    requires t >= 1 && Over(s, B64) && GroupValue(B64, s) < Pow(256, t)
    ensures DecodeChunk(s, t) == Success(NatToBytes(GroupValue(B64, s), t))
  {
    ByteRange(t);
    PlacedBytes(GroupValue(B64, s), t);
  }

  /** The chunk decoder is defined for every chunk size of at least one byte. */
  ghost predicate AcceptsSizes(dec: (string, nat) --> Result<seq<Byte>>) {
    forall g: string, t: nat :: t >= 1 ==> dec.requires(g, t)
  }

  /** What the decoder's loop relies on from the chunk decoder: on symbols of the alphabet it fails only on overflow, and returns `t` bytes. */
  ghost predicate ChunkDecoder(dec: (string, nat) --> Result<seq<Byte>>) {
    && AcceptsSizes(dec)
    && forall g: string, t: nat :: t >= 1 && Over(g, B64) ==>
      && (dec(g, t).Failure? ==> dec(g, t).error == Overflow)
      && (dec(g, t).Success? ==> |dec(g, t).value| == t)
  }

  lemma DecodeChunkIsChunkDecoder()
    ensures ChunkDecoder(DecodeChunk)
  {
  }

  /**
   * The loop of `base62_to_array_buffer`, for a chunk decoder `dec`: groups of
   * `min(len - i, MAX_CHUNK)` characters, each length looked up in `INV_M`,
   * their bytes concatenated in order, the first error ending the loop.
   */
  function DecodeGroups(s: string, dec: (string, nat) --> Result<seq<Byte>>): Result<seq<Byte>>
    requires AcceptsSizes(dec)
    decreases |s|
  {
    if |s| == 0 then Success([])
    else
      var c := Min(|s|, MaxChunk);
      match InvWidth(c)
      case None => Failure(UnknownGroupLength)
      case Some(t) =>
        match dec(s[..c], t)
        case Failure(e) => Failure(e)
        case Success(chunk) =>
          match DecodeGroups(s[c..], dec)
          case Failure(e) => Failure(e)
          case Success(rest) => Success(chunk + rest)
  }

  /** `base62_to_array_buffer`: the alphanumeric check first, then the group loop. */
  function Decode(s: string): (r: Result<seq<Byte>>)
    ensures r.Failure? && r.error == NotAlphanumeric <==> !AllAlnum(s)
    ensures r.Failure? ==> r.error in {NotAlphanumeric, UnknownGroupLength, Overflow}
  {
    DecodeChunkIsChunkDecoder();
    if !AllAlnum(s) then Failure(NotAlphanumeric)
    else
      B64IsAlphabet();
      AlnumOver(B64, s);
      DecodeGroupsErrors(s, DecodeChunk);
      DecodeGroups(s, DecodeChunk)
  }

  lemma OverSuffix(s: string, c: nat)
    requires Over(s, B64) && c <= |s|
    ensures Over(s[c..], B64)
  {
    assert forall i :: 0 <= i < |s| - c ==> s[c..][i] == s[c + i];
  }

  /** Over the alphabet, the group loop fails only on a group length outside `M` or an overflow. */
  lemma {:induction false} DecodeGroupsErrors(s: string, dec: (string, nat) --> Result<seq<Byte>>)
    requires Over(s, B64) && ChunkDecoder(dec)
    ensures DecodeGroups(s, dec).Failure? ==> DecodeGroups(s, dec).error in {UnknownGroupLength, Overflow}
    decreases |s|
  {
    if |s| > 0 {
      var c := Min(|s|, MaxChunk);
      OverSuffix(s, c);
      DecodeGroupsErrors(s[c..], dec);
      if InvWidth(c).Some? {
        assert Over(s[..c], B64);
      }
    }
  }

  /** Two chunk decoders that agree on every group over the alphabet give the same loop. */
  lemma {:induction false} DecodeGroupsAgree(s: string, d1: (string, nat) --> Result<seq<Byte>>, d2: (string, nat) --> Result<seq<Byte>>)
    requires Over(s, B64) && AcceptsSizes(d1) && AcceptsSizes(d2)
    requires forall g: string, t: nat :: t >= 1 && Over(g, B64) ==> d1(g, t) == d2(g, t)
    ensures DecodeGroups(s, d1) == DecodeGroups(s, d2)
    decreases |s|
  {
    if |s| > 0 {
      var c := Min(|s|, MaxChunk);
      OverSuffix(s, c);
      DecodeGroupsAgree(s[c..], d1, d2);
      if InvWidth(c).Some? {
        assert Over(s[..c], B64);
      }
    }
  }

  /** A remainder length that `M` never produces: 1, or a multiple of 4 (the full-group length 43 is never a remainder). */
  predicate BadTail(L: nat) {
    var r := L % 43;
    r != 0 && (r == 1 || r % 4 == 0)
  }

  /** Bytes the decoder returns for `L` characters: 32 per full group and `INV_M[r]`, in closed form, for a remainder of `r`. */
  function DecodedLength(L: nat): nat {
    var r := L % 43;
    L / 43 * 32 + (if r == 0 then 0 else r - 1 - (r - 1) / 4)
  }

  /** The first group's length has a chunk size unless the length is a bad tail. */
  lemma BadTailStep(L: nat)
    requires L >= 1
    ensures InvWidth(Min(L, 43)).None? <==> L < 43 && BadTail(L)
    ensures BadTail(L) <==> InvWidth(Min(L, 43)).None? || BadTail(L - Min(L, 43))
  {
    InvWidthClosedForm(Min(L, 43));
    if L >= 43 {
      DivModStep(L, 43);
      InvWidthOfWidth(32);
    } else {
      DivModUnique(L, 43, 0, L);
    }
  }

  /** The bytes of the first group and of the rest add up to `DecodedLength`. */
  lemma DecodedLengthStep(L: nat)
    requires L >= 1 && InvWidth(Min(L, 43)).Some?
    ensures DecodedLength(L) == InvWidth(Min(L, 43)).value + DecodedLength(L - Min(L, 43))
  {
    if L >= 43 {
      DivModStep(L, 43);
      InvWidthOfWidth(32);
    } else {
      DivModUnique(L, 43, 0, L);
      InvWidthClosedForm(L);
    }
  }

  /** The group loop refuses every text whose remainder is a bad tail. */
  lemma {:induction false} DecodeGroupsBadTail(s: string, dec: (string, nat) --> Result<seq<Byte>>)
    requires AcceptsSizes(dec)
    ensures BadTail(|s|) ==> DecodeGroups(s, dec).Failure?
    decreases |s|
  {
    if |s| > 0 {
      BadTailStep(|s|);
      DecodeGroupsBadTail(s[Min(|s|, MaxChunk)..], dec);
    }
  }

  /** On text over the alphabet, an `UnknownGroupLength` error from the group loop means a bad tail. */
  lemma {:induction false} DecodeGroupsLengthError(s: string, dec: (string, nat) --> Result<seq<Byte>>)
    requires Over(s, B64) && ChunkDecoder(dec)
    ensures DecodeGroups(s, dec).Failure? && DecodeGroups(s, dec).error == UnknownGroupLength ==> BadTail(|s|)
    decreases |s|
  {
    if |s| > 0 {
      var c := Min(|s|, MaxChunk);
      BadTailStep(|s|);
      OverSuffix(s, c);
      DecodeGroupsLengthError(s[c..], dec);
      if InvWidth(c).Some? {
        assert Over(s[..c], B64);
      }
    }
  }

  /** On text over the alphabet, a success of the group loop has `INV_M` bytes per group. */
  lemma {:induction false} DecodeGroupsLength(s: string, dec: (string, nat) --> Result<seq<Byte>>)
    requires Over(s, B64) && ChunkDecoder(dec)
    ensures DecodeGroups(s, dec).Success? ==> !BadTail(|s|) && |DecodeGroups(s, dec).value| == DecodedLength(|s|)
    decreases |s|
  {
    if |s| > 0 {
      var c := Min(|s|, MaxChunk);
      BadTailStep(|s|);
      OverSuffix(s, c);
      DecodeGroupsLength(s[c..], dec);
      if InvWidth(c).Some? {
        assert Over(s[..c], B64);
        DecodedLengthStep(|s|);
      }
    }
  }

  /** The decoder accepts exactly alphanumeric text, refuses every bad tail, and returns `DecodedLength` bytes. */
  lemma DecodeShape(s: string)
    ensures BadTail(|s|) ==> Decode(s).Failure?
    ensures Decode(s).Failure? && Decode(s).error == UnknownGroupLength ==> BadTail(|s|)
    ensures Decode(s).Success? ==> !BadTail(|s|) && |Decode(s).value| == DecodedLength(|s|)
  {
    if AllAlnum(s) {
      B64IsAlphabet();
      AlnumOver(B64, s);
      DecodeChunkIsChunkDecoder();
      DecodeGroupsBadTail(s, DecodeChunk);
      DecodeGroupsLengthError(s, DecodeChunk);
      DecodeGroupsLength(s, DecodeChunk);
    }
  }

  /** A successful decode is the first group's bytes followed by the rest's. */
  lemma DecodeGroupsUncons(s: string, dec: (string, nat) --> Result<seq<Byte>>)
    requires |s| > 0 && AcceptsSizes(dec) && DecodeGroups(s, dec).Success?
    ensures InvWidth(Min(|s|, MaxChunk)).Some? && 1 <= InvWidth(Min(|s|, MaxChunk)).value
    ensures dec(s[..Min(|s|, MaxChunk)], InvWidth(Min(|s|, MaxChunk)).value).Success?
    ensures DecodeGroups(s[Min(|s|, MaxChunk)..], dec).Success?
    ensures DecodeGroups(s, dec).value
         == dec(s[..Min(|s|, MaxChunk)], InvWidth(Min(|s|, MaxChunk)).value).value + DecodeGroups(s[Min(|s|, MaxChunk)..], dec).value
  {
  }

  // ---------------------------------------------------------------- properties

  /** A chunk's group decodes back to the chunk. */
  lemma ChunkRoundTrip(x: seq<Byte>)
    requires 1 <= |x| <= N
    ensures InvWidth(|EncodeChunk(x)|) == Some(|x|)
    ensures DecodeChunk(EncodeChunk(x), |x|) == Success(x)
  {
    var w := Width(|x|);
    InvWidthOfWidth(|x|);
    EncodeChunkIsGroup(x);
    WidthIsLeast(|x|);
    B64IsAlphabet();
    GroupValueOfEncodeGroup(B64, x, w);
    DecodeChunkIsBytes(EncodeChunk(x), |x|);
    NatToBytesOfValue(x);
  }

  /** A group of `M(t)` symbols that decodes to `t` bytes re-encodes to itself. */
  lemma GroupRoundTrip(g: string, t: nat)
    requires 1 <= t <= N && |g| == Width(t) && DecodeChunk(g, t).Success?
    ensures |DecodeChunk(g, t).value| == t
    ensures EncodeChunk(DecodeChunk(g, t).value) == g
  {
    DecodeChunkIsBytes(g, t);
    EncodeChunkIsGroup(DecodeChunk(g, t).value);
    EncodeGroupOfValue(B64, g, t);
  }

  /** Every chunk's group decodes back to the chunk. */
  ghost predicate ChunksRoundTrip(dec: (string, nat) --> Result<seq<Byte>>) {
    forall x: seq<Byte> :: 1 <= |x| <= N ==>
      dec.requires(EncodeChunk(x), |x|) && dec(EncodeChunk(x), |x|) == Success(x)
  }

  /** Every group of a chunk's width that decodes re-encodes to itself. */
  ghost predicate GroupsRoundTrip(dec: (string, nat) --> Result<seq<Byte>>) {
    forall g: string, t: nat :: 1 <= t <= N && |g| == Width(t) && dec.requires(g, t) && dec(g, t).Success? ==>
      |dec(g, t).value| == t && EncodeChunk(dec(g, t).value) == g
  }

  lemma ChunkCodecRoundTrips()
    ensures ChunksRoundTrip(DecodeChunk)
    ensures GroupsRoundTrip(DecodeChunk)
  {
    forall x: seq<Byte> | 1 <= |x| <= N
      ensures DecodeChunk(EncodeChunk(x), |x|) == Success(x)
    {
      ChunkRoundTrip(x);
    }
    forall g: string, t: nat | 1 <= t <= N && |g| == Width(t) && DecodeChunk(g, t).Success?
      ensures |DecodeChunk(g, t).value| == t && EncodeChunk(DecodeChunk(g, t).value) == g
    {
      GroupRoundTrip(g, t);
    }
  }

  /** One chunk at the front of the encoder's loop is one group at the front of the decoder's. */
  lemma EncodeStepFacts(b: seq<Byte>) returns (x: seq<Byte>, y: seq<Byte>)
    requires |b| > 0
    ensures x == b[..Min(|b|, N)] && y == b[Min(|b|, N)..] && x + y == b && 1 <= |x| <= N
    ensures Encode(b) == EncodeChunk(x) + Encode(y)
    ensures Min(|Encode(b)|, MaxChunk) == |EncodeChunk(x)| == Width(|x|)
    ensures InvWidth(Width(|x|)) == Some(|x|)
  {
    x, y := b[..Min(|b|, N)], b[Min(|b|, N)..];
    TakeDrop(b, Min(|b|, N));
    EncodeUncons(b);
    InvWidthOfWidth(|x|);
    MaxChunkIsWidest(|x|);
    if |x| < N {
      assert |y| == 0;
    }
  }

  /** The round-trip contract at one chunk. */
  lemma EncodedChunk(x: seq<Byte>, dec: (string, nat) --> Result<seq<Byte>>)
    requires ChunksRoundTrip(dec) && 1 <= |x| <= N
    ensures dec.requires(EncodeChunk(x), |x|) && dec(EncodeChunk(x), |x|) == Success(x)
  {
  }

  /** Decoding an encoding recovers the buffer, for every buffer. */
  lemma {:induction false} DecodeGroupsEncode(b: seq<Byte>, dec: (string, nat) --> Result<seq<Byte>>)
    requires AcceptsSizes(dec) && ChunksRoundTrip(dec)
    ensures DecodeGroups(Encode(b), dec) == Success(b)
    decreases |b|
  {
    if |b| > 0 {
      var x, y := EncodeStepFacts(b);
      EncodedChunk(x, dec);
      var s := Encode(b);
      var g := EncodeChunk(x);
      assert s[..|g|] == g && s[|g|..] == Encode(y);
      DecodeGroupsEncode(y, dec);
    }
  }

  /** `decode(encode(B)) == Ok(B)` for every `B`. */
  lemma RoundTrip(b: seq<Byte>)
    ensures Decode(Encode(b)) == Success(b)
  {
    B64IsAlphabet();
    AlnumOver(B64, Encode(b));
    DecodeChunkIsChunkDecoder();
    ChunkCodecRoundTrips();
    DecodeGroupsEncode(b, DecodeChunk);
  }

  /** One group at the front of the decoder's loop is one chunk at the front of the encoder's. */
  lemma DecodeStepFacts(s: string, dec: (string, nat) --> Result<seq<Byte>>) returns (g: string, tail: string, chunk: seq<Byte>, rest: seq<Byte>)
    requires |s| > 0 && AcceptsSizes(dec) && GroupsRoundTrip(dec) && DecodeGroups(s, dec).Success?
    ensures |tail| < |s| && DecodeGroups(tail, dec) == Success(rest)
    ensures DecodeGroups(s, dec).value == chunk + rest && g + tail == s
    ensures 1 <= |chunk| <= N && Min(|chunk + rest|, N) == |chunk|
    ensures (chunk + rest)[..|chunk|] == chunk && (chunk + rest)[|chunk|..] == rest
    ensures EncodeChunk(chunk) == g
  {
    var c := Min(|s|, MaxChunk);
    DecodeGroupsUncons(s, dec);
    var t := InvWidth(c).value;
    g, tail := s[..c], s[c..];
    chunk, rest := dec(g, t).value, DecodeGroups(tail, dec).value;
    MaxChunkIsWidest(t);
    if t < N {
      assert |tail| == 0;
      assert DecodeGroups(tail, dec) == Success([]);
    }
  }

  /** Whatever the group loop accepts, re-encoding its bytes gives the text back. */
  lemma {:induction false} EncodeDecodeGroups(s: string, dec: (string, nat) --> Result<seq<Byte>>)
    requires AcceptsSizes(dec) && GroupsRoundTrip(dec) && DecodeGroups(s, dec).Success?
    ensures Encode(DecodeGroups(s, dec).value) == s
    decreases |s|
  {
    if |s| > 0 {
      var g, tail, chunk, rest := DecodeStepFacts(s, dec);
      EncodeDecodeGroups(tail, dec);
      EncodeUncons(chunk + rest);
    }
  }

  /** Decoding is exact: text that decodes is the encoding of what it decodes to. */
  lemma EncodeDecode(s: string)
    requires Decode(s).Success?
    ensures Encode(Decode(s).value) == s
  {
    DecodeChunkIsChunkDecoder();
    ChunkCodecRoundTrips();
    EncodeDecodeGroups(s, DecodeChunk);
  }

  /** The length the encoder writes is never a bad tail, so lengths alone never make the decoder refuse an encoding. */
  lemma EncodedLengthIsGood(L: nat)
    ensures !BadTail(EncodedLength(L))
    ensures DecodedLength(EncodedLength(L)) == L
  {
    var q, r := L / N, L % N;
    var E := EncodedLength(L);
    if r == 0 {
      assert E == q * MaxChunk;
      DivModUnique(E, MaxChunk, q, 0);
    } else {
      ClosedFormArith(r);
      InvWidthOfWidth(r);
      MaxChunkIsWidest(r);
      DivModUnique(E, MaxChunk, q, Width(r));
      DivModUnique(L, N, q, r);
    }
  }

  /** The empty buffer and the empty text correspond. */
  lemma EmptyCases()
    ensures Encode([]) == ""
    ensures Decode("") == Success([])
  {
  }

  // ---------------------------------------------------------------- vectors

  /** A buffer of one chunk encodes to that chunk's group. */
  lemma EncodeOneChunk(b: seq<Byte>)
    requires 1 <= |b| <= N
    ensures Encode(b) == EncodeChunk(b)
  {
    EncodeUncons(b);
    assert b[..Min(|b|, N)] == b;
    assert Encode(b[Min(|b|, N)..]) == "";
  }

  /** A buffer of one chunk and a group of its width holding the same value encode to and decode from each other. */
  lemma OneChunkVector(b: seq<Byte>, g: string)
    requires 1 <= |b| <= N && |g| == Width(|b|) && Over(g, B64) && GroupValue(B64, g) == BytesToNat(b)
    ensures Encode(b) == g
    ensures Decode(g) == Success(b)
  {
    EncodeOneChunk(b);
    EncodeChunkIsGroup(b);
    EncodeGroupOfValue(B64, g, |b|);
    NatToBytesOfValue(b);
    RoundTrip(b);
  }

  /** The digits of a string spelled from known digits of the alphabet. */
  lemma ReadSpelled(g: string, ds: seq<int>)
    requires |g| == |ds| && IsDigits(ds, 62)
    requires forall i :: 0 <= i < |ds| ==> g[i] as int == B64Code(ds[i])
    ensures Over(g, B64) && Read(B64, g) == ds
  {
    B64Codes();
    B64IsAlphabet();
    assert g == Spell(B64, ds);
    ReadSpell(B64, ds);
  }

  /** The digits of "DGjU5e" in the base64 ordering, read as one number. */
  lemma ValueOfDGjU5e()
    ensures FromDigits([3, 6, 35, 20, 57, 30], 62) == 2845478436
  {
    FromDigitsSnoc([], 3, 62);
    assert [] + [3] == [3];
    assert FromDigits([3], 62) == 3;
    FromDigitsSnoc([3], 6, 62);
    assert [3] + [6] == [3, 6];
    assert FromDigits([3, 6], 62) == 192;
    FromDigitsSnoc([3, 6], 35, 62);
    assert [3, 6] + [35] == [3, 6, 35];
    assert FromDigits([3, 6, 35], 62) == 11939;
    FromDigitsSnoc([3, 6, 35], 20, 62);
    assert [3, 6, 35] + [20] == [3, 6, 35, 20];
    assert FromDigits([3, 6, 35, 20], 62) == 740238;
    FromDigitsSnoc([3, 6, 35, 20], 57, 62);
    assert [3, 6, 35, 20] + [57] == [3, 6, 35, 20, 57];
    assert FromDigits([3, 6, 35, 20, 57], 62) == 45894813;
    FromDigitsSnoc([3, 6, 35, 20, 57], 30, 62);
    assert [3, 6, 35, 20, 57] + [30] == [3, 6, 35, 20, 57, 30];
    assert FromDigits([3, 6, 35, 20, 57, 30], 62) == 2845478436;
  }

  /** The bytes `[169, 154, 142, 36]`, read as one big-endian number. */
  lemma ValueOfFourBytes()
    ensures FromDigits([169, 154, 142, 36], 256) == 2845478436
  {
    FromDigitsSnoc([], 169, 256);
    assert [] + [169] == [169];
    assert FromDigits([169], 256) == 169;
    FromDigitsSnoc([169], 154, 256);
    assert [169] + [154] == [169, 154];
    assert FromDigits([169, 154], 256) == 43418;
    FromDigitsSnoc([169, 154], 142, 256);
    assert [169, 154] + [142] == [169, 154, 142];
    assert FromDigits([169, 154, 142], 256) == 11115150;
    FromDigitsSnoc([169, 154, 142], 36, 256);
    assert [169, 154, 142] + [36] == [169, 154, 142, 36];
    assert FromDigits([169, 154, 142, 36], 256) == 2845478436;
  }

  /** The digits of "QFC" in the base64 ordering, read as one number. */
  lemma ValueOfQFC()
    ensures FromDigits([16, 5, 2], 62) == 61816
  {
    FromDigitsSnoc([], 16, 62);
    assert [] + [16] == [16];
    assert FromDigits([16], 62) == 16;
    FromDigitsSnoc([16], 5, 62);
    assert [16] + [5] == [16, 5];
    assert FromDigits([16, 5], 62) == 997;
    FromDigitsSnoc([16, 5], 2, 62);
    assert [16, 5] + [2] == [16, 5, 2];
    assert FromDigits([16, 5, 2], 62) == 61816;
  }

  /** The bytes `[241, 120]`, read as one big-endian number. */
  lemma ValueOfTwoBytes()
    ensures FromDigits([241, 120], 256) == 61816
  {
    FromDigitsSnoc([], 241, 256);
    assert [] + [241] == [241];
    assert FromDigits([241], 256) == 241;
    FromDigitsSnoc([241], 120, 256);
    assert [241] + [120] == [241, 120];
    assert FromDigits([241, 120], 256) == 61816;
  }

  /** `[169, 154, 142, 36]` and "DGjU5e", from the unit tests. */
  lemma VectorFourBytes()
    ensures Encode([169, 154, 142, 36]) == "DGjU5e"
    ensures Decode("DGjU5e") == Success([169, 154, 142, 36])
  {
    ReadSpelled("DGjU5e", [3, 6, 35, 20, 57, 30]);
    ValueOfDGjU5e();
    ValueOfFourBytes();
    OneChunkVector([169, 154, 142, 36], "DGjU5e");
  }

  /** `[241, 120]` and "QFC", from the unit tests. */
  lemma VectorTwoBytes()
    ensures Encode([241, 120]) == "QFC"
    ensures Decode("QFC") == Success([241, 120])
  {
    ReadSpelled("QFC", [16, 5, 2]);
    ValueOfQFC();
    ValueOfTwoBytes();
    OneChunkVector([241, 120], "QFC");
  }
}
