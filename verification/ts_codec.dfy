/**
 * The TypeScript reference codec (`src/base62.ts`): lexicographic alphabet,
 * buffers whose length is a multiple of 4, power-of-two chunks of 32, 16, 8
 * or 4 bytes, and a decoder that picks the widest group that still fits.
 */
module TsCodec {
  import opened Radix
  import opened Outcomes
  import opened Alphabet
  import opened Widths
  import opened Groups
  import opened Lexicographic

  /** `intervals`: chunk size in bytes to group width in characters. */
  const Intervals: map<nat, nat> := map[32 := 43, 16 := 22, 8 := 11, 4 := 6]

  /** `inverseIntervals`: group width back to chunk size. */
  const InverseIntervals: map<nat, nat> := map[43 := 32, 22 := 16, 11 := 8, 6 := 4]

  /** `inverseKeys`: the group widths, ascending. */
  const InverseKeys: seq<nat> := [6, 11, 22, 43]

  /** The hard-coded widths are the size table's: the fewest digits that hold every value of the chunk. */
  lemma IntervalsAreWidths(c: nat)
    requires c in Intervals
    ensures 1 <= c <= N && c % 4 == 0 && Intervals[c] == Width(c) == MinWidth(c)
  {
    assert c == 32 || c == 16 || c == 8 || c == 4;
    WidthIsMin(c);
  }

  /** `inverseIntervals` inverts `intervals`, and `inverseKeys` lists its keys in ascending order. */
  lemma InverseTables()
    ensures forall c :: c in Intervals ==> Intervals[c] in InverseIntervals && InverseIntervals[Intervals[c]] == c
    ensures forall w :: w in InverseIntervals ==> InverseIntervals[w] in Intervals && Intervals[InverseIntervals[w]] == w
    ensures forall w :: w in InverseKeys <==> w in InverseIntervals
    ensures forall i, j :: 0 <= i < j < |InverseKeys| ==> InverseKeys[i] < InverseKeys[j]
  {
  }

  // ---------------------------------------------------------------- encoder

  /** `Math.floor(Math.log2(L))`, exactly. */
  function FloorLog2(L: nat): (r: nat)
    requires L >= 1
    ensures Pow(2, r) <= L < Pow(2, r + 1)
  {
    if L == 1 then 0
    else
      var r := FloorLog2(L / 2);
      assert Pow(2, r + 2) == 2 * Pow(2, r + 1);
      1 + r
  }

  /** The next chunk: the largest power of two not above `L`, capped at 32 bytes. */
  function ChunkSize(L: nat): (c: nat)
    requires L >= 1
    ensures 1 <= c <= L && c <= 32
  {
    if L >= 32 then 32 else if L >= 16 then 16 else if L >= 8 then 8 else if L >= 4 then 4 else if L >= 2 then 2 else 1
  }

  /** The chunk is the loop's `2 ** Math.min(Math.floor(Math.log2(L)), 5)`. */
  lemma ChunkSizeIsLog2(L: nat)
    requires L >= 1
    ensures ChunkSize(L) == Pow(2, Min(FloorLog2(L), 5))
  {
    var r := FloorLog2(L);
    assert Pow(2, 1) == 2 && Pow(2, 2) == 4 && Pow(2, 3) == 8 && Pow(2, 4) == 16 && Pow(2, 5) == 32;
    if r >= 5 {
      PowMonotone(2, 5, r);
    } else if L >= 32 {
      assert false;
    }
  }

  /** For a length that is a multiple of 4, the chunk is 4, 8, 16 or 32 bytes and the rest stays a multiple of 4. */
  lemma ChunkSizeAligned(L: nat)
    requires L >= 1 && L % 4 == 0
    ensures ChunkSize(L) in Intervals
    ensures (L - ChunkSize(L)) % 4 == 0
    ensures ChunkSize(L) < 32 ==> L - ChunkSize(L) < ChunkSize(L)
  {
  }

  /** The chunk sizes the encoder's loop takes, in order, for `L` bytes. */
  function ChunkSizes(L: nat): (cs: seq<nat>)
    decreases L
  {
    if L == 0 then [] else [ChunkSize(L)] + ChunkSizes(L - ChunkSize(L))
  }

  function Sum(cs: seq<nat>): nat {
    if |cs| == 0 then 0 else cs[0] + Sum(cs[1..])
  }

  /** For a length that is a multiple of 4, the chunks are 4, 8, 16 or 32 bytes, none above the length, and add up to it. */
  lemma {:induction false} ChunkSizesCover(L: nat)
    requires L % 4 == 0
    ensures Sum(ChunkSizes(L)) == L
    ensures forall i :: 0 <= i < |ChunkSizes(L)| ==> ChunkSizes(L)[i] in Intervals && ChunkSizes(L)[i] <= L
    decreases L
  {
    if L > 0 {
      var c := ChunkSize(L);
      ChunkSizeAligned(L);
      var cs, rest := ChunkSizes(L), ChunkSizes(L - c);
      assert cs == [c] + rest;
      assert cs[1..] == rest;
      ChunkSizesCover(L - c);
      forall i | 0 < i < |cs|
        ensures cs[i] in Intervals && cs[i] <= L
      {
        assert cs[i] == rest[i - 1];
      }
    }
  }

  /** The chunks never grow. */
  lemma {:induction false} ChunkSizesDescend(L: nat)
    requires L % 4 == 0
    ensures forall i, j :: 0 <= i < j < |ChunkSizes(L)| ==> ChunkSizes(L)[j] <= ChunkSizes(L)[i]
    decreases L
  {
    if L > 0 {
      var c := ChunkSize(L);
      ChunkSizeAligned(L);
      var cs, rest := ChunkSizes(L), ChunkSizes(L - c);
      assert cs == [c] + rest;
      ChunkSizesDescend(L - c);
      ChunkSizesCover(L - c);
      forall i, j | 0 <= i < j < |cs|
        ensures cs[j] <= cs[i]
      {
        var y := rest[j - 1];
        assert cs[j] == y;
        if i > 0 {
          assert cs[i] == rest[i - 1];
        } else {
          assert y in Intervals && y <= L - c;
          assert y <= 32 && (c < 32 ==> L - c < c);
        }
      }
    }
  }

  /** Once a chunk is below 32 bytes, the next one is strictly smaller. */
  lemma {:induction false} ChunkSizesShrink(L: nat)
    requires L % 4 == 0
    ensures forall i :: 0 <= i < |ChunkSizes(L)| - 1 && ChunkSizes(L)[i] < 32 ==> ChunkSizes(L)[i + 1] < ChunkSizes(L)[i]
    decreases L
  {
    if L > 0 {
      var c := ChunkSize(L);
      ChunkSizeAligned(L);
      var cs, rest := ChunkSizes(L), ChunkSizes(L - c);
      assert cs == [c] + rest;
      ChunkSizesShrink(L - c);
      ChunkSizesCover(L - c);
      forall i | 0 <= i < |cs| - 1 && cs[i] < 32
        ensures cs[i + 1] < cs[i]
      {
        var y := rest[i];
        assert cs[i + 1] == y;
        if i > 0 {
          assert cs[i] == rest[i - 1];
        } else {
          assert y <= L - c < c;
        }
      }
    }
  }

  /** `_arrayBufferToBase62`: a chunk's significant digits, padded with '0' to `intervals[c]`. */
  function EncodeChunk(buffer: seq<Byte>, c: nat): (r: Result<string>)
    ensures r.Failure? <==> |buffer| != c || c !in Intervals
    ensures r.Failure? ==> r.error == ChunkMismatch
    ensures r.Success? ==> |r.value| == Intervals[c] && Over(r.value, LEX)
  {
    if |buffer| != c || c !in Intervals then Failure(ChunkMismatch)
    else
      IntervalsAreWidths(c);
      WidthIsLeast(c);
      PaddedDigitsIsGroup(LEX, buffer, Width(c));
      Success(PadLeft(Spell(LEX, MinimalDigits(BytesToNat(buffer), 62)), Intervals[c], '0'))
  }

  /** A chunk's group is exactly `intervals[c]` base62 digits of its value: padding never truncates. */
  lemma EncodeChunkIsGroup(buffer: seq<Byte>, c: nat)
    requires |buffer| == c && c in Intervals
    ensures EncodeChunk(buffer, c) == Success(EncodeGroup(LEX, buffer, Width(c)))
  {
    IntervalsAreWidths(c);
    WidthIsLeast(c);
    LexIsAlphabet();
    PaddedDigitsIsGroup(LEX, buffer, Width(c));
  }

  /** What the encoder's loop relies on from the chunk encoder: the checks and the group's width and symbols. */
  ghost predicate ChunkEncoder(enc: (seq<Byte>, nat) -> Result<string>) {
    forall x: seq<Byte>, c: nat ::
      && (enc(x, c).Failure? <==> |x| != c || c !in Intervals)
      && (enc(x, c).Failure? ==> enc(x, c).error == ChunkMismatch)
      && (enc(x, c).Success? ==> |enc(x, c).value| == Intervals[c] && Over(enc(x, c).value, LEX))
  }

  lemma EncodeChunkIsChunkEncoder()
    ensures ChunkEncoder(EncodeChunk)
  {
  }

  /**
   * The loop of `arrayBufferToBase62`, for a chunk encoder `enc`: chunks of
   * `ChunkSize` bytes, their groups concatenated in order, the first error
   * ending the loop.
   */
  function EncodeLoop(b: seq<Byte>, enc: (seq<Byte>, nat) -> Result<string>): Result<string>
    decreases |b|
  {
    if |b| == 0 then Success("")
    else
      var c := ChunkSize(|b|);
      match enc(b[..c], c)
      case Failure(e) => Failure(e)
      case Success(g) =>
        match EncodeLoop(b[c..], enc)
        case Failure(e) => Failure(e)
        case Success(rest) => Success(g + rest)
  }

  /** One step of the encoder's loop: which chunks have a width, alignment of the rest, and the width's bounds. */
  lemma ChunkStep(L: nat)
    requires L >= 1
    ensures ChunkSize(L) !in Intervals ==> L % 4 != 0
    ensures ChunkSize(L) in Intervals ==> (L % 4 == 0 <==> (L - ChunkSize(L)) % 4 == 0)
    ensures ChunkSize(L) in Intervals ==> 1 <= ChunkSize(L) <= N
    ensures ChunkSize(L) in Intervals ==> 4 * ChunkSize(L) <= 3 * Intervals[ChunkSize(L)] && 2 * Intervals[ChunkSize(L)] <= 3 * ChunkSize(L)
  {
  }

  /**
   * The loop succeeds exactly on buffers whose length is a multiple of 4, and
   * then writes between 4/3 and 3/2 characters per byte, all from the alphabet.
   */
  lemma {:induction false} EncodeLoopShape(b: seq<Byte>, enc: (seq<Byte>, nat) -> Result<string>)
    requires ChunkEncoder(enc)
    ensures EncodeLoop(b, enc).Success? <==> |b| % 4 == 0
    ensures EncodeLoop(b, enc).Failure? ==> EncodeLoop(b, enc).error == ChunkMismatch
    ensures EncodeLoop(b, enc).Success? ==>
      Over(EncodeLoop(b, enc).value, LEX) && 4 * |b| <= 3 * |EncodeLoop(b, enc).value| && 2 * |EncodeLoop(b, enc).value| <= 3 * |b|
    decreases |b|
  {
    if |b| > 0 {
      var c := ChunkSize(|b|);
      ChunkStep(|b|);
      EncodeLoopShape(b[c..], enc);
    }
  }

  /** A successful run of the loop is the first chunk's group followed by the rest's. */
  lemma EncodeLoopUncons(b: seq<Byte>, enc: (seq<Byte>, nat) -> Result<string>)
    requires |b| > 0 && EncodeLoop(b, enc).Success?
    ensures enc(b[..ChunkSize(|b|)], ChunkSize(|b|)).Success? && EncodeLoop(b[ChunkSize(|b|)..], enc).Success?
    ensures EncodeLoop(b, enc).value == enc(b[..ChunkSize(|b|)], ChunkSize(|b|)).value + EncodeLoop(b[ChunkSize(|b|)..], enc).value
  {
  }

  /** A chunk the loop takes first, followed by bytes the loop encodes, encodes to its group and then theirs. */
  lemma EncodeLoopCons(x: seq<Byte>, y: seq<Byte>, enc: (seq<Byte>, nat) -> Result<string>)
    requires |x| >= 1 && ChunkSize(|x| + |y|) == |x|
    requires enc(x, |x|).Success? && EncodeLoop(y, enc).Success?
    ensures EncodeLoop(x + y, enc) == Success(enc(x, |x|).value + EncodeLoop(y, enc).value)
  {
    var b := x + y;
    assert b[..|x|] == x && b[|x|..] == y;
  }

  /** `arrayBufferToBase62`: refuses a length that is not a multiple of 4. */
  function Encode(b: seq<Byte>): (r: Result<string>)
    ensures r.Failure? <==> |b| % 4 != 0
    ensures r.Failure? ==> r.error == UnalignedLength
    ensures r.Success? ==> Over(r.value, LEX) && 4 * |b| <= 3 * |r.value| && 2 * |r.value| <= 3 * |b|
  {
    if |b| % 4 != 0 then Failure(UnalignedLength)
    else
      EncodeChunkIsChunkEncoder();
      EncodeLoopShape(b, EncodeChunk);
      EncodeLoop(b, EncodeChunk)
  }

  // ---------------------------------------------------------------- decoder
  /** `filter(num => num <= R)`: the keys not above `R`, in their original order. */
  function Filter(ks: seq<nat>, R: nat): (r: seq<nat>)
    ensures forall k :: k in r <==> k in ks && k <= R
    ensures (forall i, j :: 0 <= i < j < |ks| ==> ks[i] < ks[j]) ==> forall i, j :: 0 <= i < j < |r| ==> r[i] < r[j]
  {
    if |ks| == 0 then []
    else
      var rest := Filter(ks[1..], R);
      assert ks == [ks[0]] + ks[1..];
      if ks[0] <= R then
        assert forall i :: 0 <= i < |rest| ==> rest[i] in ks[1..];
        [ks[0]] + rest
      else rest
  }

  /** `inverseKeys.filter(num => num <= R).pop()`: the widest group that fits in `R` characters. */
  function PopFit(R: nat): (r: Option<nat>)
    ensures r.None? <==> R < 6
    ensures r.Some? ==> r.value in InverseKeys && r.value <= R
    ensures r.Some? ==> forall w :: w in InverseKeys && w <= R ==> w <= r.value
  {
    var f := Filter(InverseKeys, R);
    InverseTables();
    assert forall k :: k in InverseKeys ==> 6 <= k;
    if |f| == 0 then
      assert 6 in InverseKeys;
      None
    else
      assert forall k :: k in f ==> k <= f[|f| - 1] by {
        forall k | k in f
          ensures k <= f[|f| - 1]
        {
          var i :| 0 <= i < |f| && f[i] == k;
        }
      }
      assert f[|f| - 1] in f;
      Some(f[|f| - 1])
  }

  /** The decoder's choice of group width for `R` characters left, as a table. */
  function GreedyKey(R: nat): (r: Option<nat>)
    ensures r.Some? ==> r.value in InverseIntervals
  {
    if R >= 43 then Some(43) else if R >= 22 then Some(22) else if R >= 11 then Some(11) else if R >= 6 then Some(6) else None
  }

  /** The table is the source's filter-then-pop: the widest key that fits, none below 6. */
  lemma GreedyKeyIsPopFit(R: nat)
    ensures GreedyKey(R) == PopFit(R)
  {
    var p := PopFit(R);
    assert 43 in InverseKeys && 22 in InverseKeys && 11 in InverseKeys && 6 in InverseKeys;
    if p.Some? {
      assert p.value in InverseKeys;
    }
  }

  /**
   * The word loop: `k` 32-bit words of `n`, each written big-endian by
   * `setUint32`, the lowest word last; `BigInt.asUintN(32, n)` is one base
   * `2^32` digit and `n >> 32n` drops it.
   */
  function WordsBE(n: nat, k: nat): (bs: seq<Byte>)
  {
    DigitGroups(n, 256, 4, k)
  }

  /** The word loop writes the `4k`-byte big-endian representation of `n`. */
  lemma WordsBEBytes(n: nat, k: nat)
    ensures WordsBE(n, k) == NatToBytes(n, 4 * k)
  {
    DigitGroupsDigits(n, 256, 4, k);
  }

  /** `_base62ToArrayBuffer`: a group's value, refused above `2^(8t) - 1`, else written as `t / 4` words. */
  function DecodeChunk(s: string, t: nat): (r: Result<seq<Byte>>)
    requires Over(s, LEX) && t % 4 == 0
    ensures r.Failure? <==> GroupValue(LEX, s) >= Pow(256, t)
    ensures r.Failure? ==> r.error == Overflow
    ensures r.Success? ==> |r.value| == t
  {
    var n := GroupValue(LEX, s);
    ByteRange(t);
    WordsBEBytes(n, t / 4);
    if n > Pow(2, t * 8) - 1 then Failure(Overflow) else Success(WordsBE(n, t / 4))
  }

  /** An accepted group decodes to the `t`-byte big-endian representation of its value. */
  lemma DecodeChunkIsBytes(s: string, t: nat)
    requires Over(s, LEX) && t % 4 == 0 && GroupValue(LEX, s) < Pow(256, t)
    ensures DecodeChunk(s, t) == Success(NatToBytes(GroupValue(LEX, s), t))
  {
    WordsBEBytes(GroupValue(LEX, s), t / 4);
  }

  /** The chunk decoder is defined on every group over the alphabet and every whole number of words. */
  ghost predicate AcceptsGroups(dec: (string, nat) --> Result<seq<Byte>>) {
    forall g: string, t: nat :: Over(g, LEX) && t % 4 == 0 ==> dec.requires(g, t)
  }

  /** What the decoder's loop relies on from the chunk decoder: it fails only on overflow, and returns `t` bytes. */
  ghost predicate ChunkDecoder(dec: (string, nat) --> Result<seq<Byte>>) {
    && AcceptsGroups(dec)
    && forall g: string, t: nat :: Over(g, LEX) && t % 4 == 0 ==>
      && (dec(g, t).Failure? ==> dec(g, t).error == Overflow)
      && (dec(g, t).Success? ==> |dec(g, t).value| == t)
  }

  lemma DecodeChunkIsChunkDecoder()
    ensures ChunkDecoder(DecodeChunk)
  {
  }

  /**
   * One step of the decoder's loop: the chosen width has a chunk size that is a
   * multiple of 4 and at most three quarters of it, and unless it is 43 the
   * characters left after it are fewer than it.
   */
  lemma GreedyStep(R: nat)
    requires R >= 6
    ensures GreedyKey(R).Some? && GreedyKey(R).value <= R
    ensures GreedyKey(R).value in InverseIntervals
    ensures InverseIntervals[GreedyKey(R).value] % 4 == 0
    ensures 4 * InverseIntervals[GreedyKey(R).value] <= 3 * GreedyKey(R).value
    ensures GreedyKey(R).value == 43 || R - GreedyKey(R).value < GreedyKey(R).value
  {
  }

  /**
   * The loop of `base62ToArrayBuffer` over the rest `s` of the input, `oldC`
   * the previous group's width (43 at the start), for a chunk decoder `dec`:
   * the widest group that fits, the order check, then the group's bytes.
   */
  function DecodeLoop(s: string, oldC: nat, dec: (string, nat) --> Result<seq<Byte>>): Result<seq<Byte>>
    requires Over(s, LEX) && AcceptsGroups(dec)
    decreases |s|
  {
    if |s| == 0 then Success([])
    else
      var key := GreedyKey(|s|);
      if key.None? then Failure(NoGroupWidth)
      else
        var c := key.value;
        if oldC < 43 && c >= oldC then Failure(GroupOrder)
        else
          GreedyStep(|s|);
          match dec(s[..c], InverseIntervals[c])
          case Failure(e) => Failure(e)
          case Success(chunk) =>
            match DecodeLoop(s[c..], c, dec)
            case Failure(e) => Failure(e)
            case Success(rest) => Success(chunk + rest)
  }

  /** A leftover of one to five characters has no group width, so decoding fails. */
  lemma ShortLeftoverFails(s: string, oldC: nat, dec: (string, nat) --> Result<seq<Byte>>)
    requires Over(s, LEX) && AcceptsGroups(dec) && 1 <= |s| <= 5
    ensures DecodeLoop(s, oldC, dec) == Failure(NoGroupWidth)
  {
  }

  /** The loop fails only for a missing width, a misordered group, or the chunk decoder's overflow. */
  lemma {:induction false} DecodeLoopErrors(s: string, oldC: nat, dec: (string, nat) --> Result<seq<Byte>>)
    requires Over(s, LEX) && ChunkDecoder(dec)
    ensures DecodeLoop(s, oldC, dec).Failure? ==> DecodeLoop(s, oldC, dec).error in {NoGroupWidth, GroupOrder, Overflow}
    decreases |s|
  {
    if |s| >= 6 {
      var c := GreedyKey(|s|).value;
      GreedyStep(|s|);
      DecodeLoopErrors(s[c..], c, dec);
    }
  }

  /** While the previous group was full width, or the rest is shorter than it, the order check cannot fire. */
  lemma {:induction false} DecodeLoopNoOrderError(s: string, oldC: nat, dec: (string, nat) --> Result<seq<Byte>>)
    requires Over(s, LEX) && ChunkDecoder(dec) && (oldC == 43 || |s| < oldC)
    ensures DecodeLoop(s, oldC, dec) != Failure(GroupOrder)
    decreases |s|
  {
    if |s| >= 6 {
      var c := GreedyKey(|s|).value;
      GreedyStep(|s|);
      DecodeLoopNoOrderError(s[c..], c, dec);
    }
  }

  /** Decoded buffers are whole 32-bit words and at most three quarters as long as the text. */
  lemma {:induction false} DecodeLoopLength(s: string, oldC: nat, dec: (string, nat) --> Result<seq<Byte>>)
    requires Over(s, LEX) && ChunkDecoder(dec) && DecodeLoop(s, oldC, dec).Success?
    ensures |DecodeLoop(s, oldC, dec).value| % 4 == 0
    ensures 4 * |DecodeLoop(s, oldC, dec).value| <= 3 * |s|
    decreases |s|
  {
    if |s| > 0 {
      var c := GreedyKey(|s|).value;
      GreedyStep(|s|);
      var t := InverseIntervals[c];
      var rest := DecodeLoop(s[c..], c, dec);
      DecodeLoopLength(s[c..], c, dec);
      var q := |rest.value| / 4;
      assert |rest.value| == 4 * q;
      assert |DecodeLoop(s, oldC, dec).value| == t + |rest.value|;
      DivModUnique(t + |rest.value|, 4, t / 4 + q, 0);
    }
  }

  /** A successful run of the loop is the first group's bytes followed by the rest's. */
  lemma DecodeLoopUncons(s: string, oldC: nat, dec: (string, nat) --> Result<seq<Byte>>)
    requires Over(s, LEX) && AcceptsGroups(dec) && |s| >= 6 && DecodeLoop(s, oldC, dec).Success?
    ensures GreedyKey(|s|).value <= |s| && InverseIntervals[GreedyKey(|s|).value] % 4 == 0
    ensures dec(s[..GreedyKey(|s|).value], InverseIntervals[GreedyKey(|s|).value]).Success?
    ensures DecodeLoop(s[GreedyKey(|s|).value..], GreedyKey(|s|).value, dec).Success?
    ensures DecodeLoop(s, oldC, dec).value ==
      dec(s[..GreedyKey(|s|).value], InverseIntervals[GreedyKey(|s|).value]).value +
      DecodeLoop(s[GreedyKey(|s|).value..], GreedyKey(|s|).value, dec).value
  {
    GreedyStep(|s|);
  }

  /** A group the loop picks, followed by text the loop decodes, decodes to the group's bytes and then the rest's. */
  lemma DecodeLoopCons(g: string, rest: string, oldC: nat, dec: (string, nat) --> Result<seq<Byte>>)
    requires Over(g, LEX) && Over(rest, LEX) && AcceptsGroups(dec)
    requires |g| >= 6 && GreedyKey(|g| + |rest|) == Some(|g|) && (oldC == 43 || |g| + |rest| < oldC)
    requires |g| in InverseIntervals && InverseIntervals[|g|] % 4 == 0
    requires dec(g, InverseIntervals[|g|]).Success? && DecodeLoop(rest, |g|, dec).Success?
    ensures Over(g + rest, LEX)
    ensures DecodeLoop(g + rest, oldC, dec) == Success(dec(g, InverseIntervals[|g|]).value + DecodeLoop(rest, |g|, dec).value)
  {
    var s := g + rest;
    assert s[..|g|] == g && s[|g|..] == rest;
  }

  /** `base62ToArrayBuffer`: the alphanumeric check first, then the groups. */
  function Decode(s: string): (r: Result<seq<Byte>>)
    ensures r == Failure(NotAlphanumeric) <==> !AllAlnum(s)
    ensures r.Failure? ==> r.error in {NotAlphanumeric, NoGroupWidth, Overflow}
    ensures r.Success? ==> |r.value| % 4 == 0 && 4 * |r.value| <= 3 * |s|
  {
    if !AllAlnum(s) then Failure(NotAlphanumeric)
    else
      LexIsAlphabet();
      AlnumOver(LEX, s);
      DecodeChunkIsChunkDecoder();
      DecodeLoopErrors(s, 43, DecodeChunk);
      DecodeLoopNoOrderError(s, 43, DecodeChunk);
      var r := DecodeLoop(s, 43, DecodeChunk);
      if r.Success? then
        DecodeLoopLength(s, 43, DecodeChunk);
        r
      else r
  }

  // ---------------------------------------------------------------- properties
  /** A chunk's group decodes back to the chunk. */
  lemma ChunkRoundTrip(buffer: seq<Byte>, c: nat)
    requires |buffer| == c && c in Intervals
    ensures EncodeChunk(buffer, c).Success?
    ensures c % 4 == 0 && Over(EncodeChunk(buffer, c).value, LEX)
    ensures DecodeChunk(EncodeChunk(buffer, c).value, c) == Success(buffer)
  {
    var w := Intervals[c];
    EncodeChunkIsGroup(buffer, c);
    IntervalsAreWidths(c);
    WidthIsLeast(c);
    LexIsAlphabet();
    var g := EncodeGroup(LEX, buffer, w);
    GroupValueOfEncodeGroup(LEX, buffer, w);
    var n := BytesToNat(buffer);
    assert GroupValue(LEX, g) == n && n < Pow(256, c);
    DecodeChunkIsBytes(g, c);
    NatToBytesOfValue(buffer);
  }

  /** A group of `intervals[t]` characters that decodes re-encodes to itself. */
  lemma GroupRoundTrip(g: string, t: nat)
    requires t in Intervals && |g| == Intervals[t] && Over(g, LEX) && t % 4 == 0
    requires DecodeChunk(g, t).Success?
    ensures |DecodeChunk(g, t).value| == t
    ensures EncodeChunk(DecodeChunk(g, t).value, t) == Success(g)
  {
    IntervalsAreWidths(t);
    DecodeChunkIsBytes(g, t);
    EncodeChunkIsGroup(DecodeChunk(g, t).value, t);
    EncodeGroupOfValue(LEX, g, t);
  }

  /**
   * After the encoder's chunk of an aligned `L`-byte buffer, with `R` characters
   * of encoding after it, the decoder picks that chunk's width again, and the
   * order check passes for the rest.
   */
  lemma EncodedWidthIsGreedy(L: nat, R: nat)
    requires L % 4 == 0 && L > 0 && 2 * R <= 3 * (L - ChunkSize(L))
    ensures ChunkSize(L) in Intervals
    ensures GreedyKey(Intervals[ChunkSize(L)] + R) == Some(Intervals[ChunkSize(L)])
    ensures InverseIntervals[Intervals[ChunkSize(L)]] == ChunkSize(L)
    ensures Intervals[ChunkSize(L)] == 43 || R < Intervals[ChunkSize(L)]
  {
    ChunkStep(L);
  }

  /**
   * After the decoder's group of `R` characters, with `D` bytes decoded from the
   * rest, the encoder picks that group's chunk size again.
   */
  lemma DecodedChunkIsEncoderChunk(R: nat, D: nat)
    requires R >= 6 && 4 * D <= 3 * (R - GreedyKey(R).value)
    ensures InverseIntervals[GreedyKey(R).value] in Intervals
    ensures Intervals[InverseIntervals[GreedyKey(R).value]] == GreedyKey(R).value
    ensures ChunkSize(InverseIntervals[GreedyKey(R).value] + D) == InverseIntervals[GreedyKey(R).value]
  {
  }

  /** A chunk the encoder picks, followed by bytes that encode, encodes to the chunk's group and then the rest's. */

  /** Every chunk of a size with a width encodes to a group that decodes back to it. */
  ghost predicate ChunksRoundTrip(enc: (seq<Byte>, nat) -> Result<string>, dec: (string, nat) --> Result<seq<Byte>>) {
    forall x: seq<Byte> :: |x| in Intervals ==>
      && enc(x, |x|).Success?
      && Over(enc(x, |x|).value, LEX) && |x| % 4 == 0
      && dec.requires(enc(x, |x|).value, |x|)
      && dec(enc(x, |x|).value, |x|) == Success(x)
  }

  /** Every group of a chunk's width that decodes re-encodes to itself. */
  ghost predicate GroupsRoundTrip(enc: (seq<Byte>, nat) -> Result<string>, dec: (string, nat) --> Result<seq<Byte>>) {
    forall g: string, t: nat :: t in Intervals && |g| == Intervals[t] && Over(g, LEX) && dec.requires(g, t) && dec(g, t).Success? ==>
      enc(dec(g, t).value, t) == Success(g)
  }

  lemma ChunkCodecRoundTrips()
    ensures ChunksRoundTrip(EncodeChunk, DecodeChunk)
    ensures GroupsRoundTrip(EncodeChunk, DecodeChunk)
  {
    forall x: seq<Byte> | |x| in Intervals
      ensures EncodeChunk(x, |x|).Success? && Over(EncodeChunk(x, |x|).value, LEX) && |x| % 4 == 0
      ensures DecodeChunk(EncodeChunk(x, |x|).value, |x|) == Success(x)
    {
      ChunkRoundTrip(x, |x|);
    }
    forall g: string, t: nat | t in Intervals && |g| == Intervals[t] && Over(g, LEX) && t % 4 == 0 && DecodeChunk(g, t).Success?
      ensures EncodeChunk(DecodeChunk(g, t).value, t) == Success(g)
    {
      GroupRoundTrip(g, t);
    }
  }

  /** The two chunk contracts at one chunk. */
  lemma EncodedChunk(x: seq<Byte>, enc: (seq<Byte>, nat) -> Result<string>, dec: (string, nat) --> Result<seq<Byte>>)
    requires ChunkEncoder(enc) && ChunksRoundTrip(enc, dec) && |x| in Intervals
    ensures enc(x, |x|).Success? && |enc(x, |x|).value| == Intervals[|x|] && Over(enc(x, |x|).value, LEX)
    ensures dec.requires(enc(x, |x|).value, |x|) && dec(enc(x, |x|).value, |x|) == Success(x)
  {
  }

  /**
   * One turn of the encoder's loop, seen by the decoder: the first chunk's
   * group `g` is the width `w` the decoder picks in front of the rest `rest`,
   * and it decodes back to the chunk.
   */
  lemma EncodeStepFacts(b: seq<Byte>, enc: (seq<Byte>, nat) -> Result<string>, dec: (string, nat) --> Result<seq<Byte>>)
      returns (g: string, rest: string, w: nat)
    requires ChunkEncoder(enc) && ChunksRoundTrip(enc, dec) && |b| % 4 == 0 && |b| > 0
    ensures b[..ChunkSize(|b|)] + b[ChunkSize(|b|)..] == b && |b[ChunkSize(|b|)..]| % 4 == 0
    ensures EncodeLoop(b[ChunkSize(|b|)..], enc).Success? && rest == EncodeLoop(b[ChunkSize(|b|)..], enc).value
    ensures EncodeLoop(b, enc).Success? && EncodeLoop(b, enc).value == g + rest
    ensures Over(g, LEX) && Over(rest, LEX)
    ensures |g| == w >= 6 && GreedyKey(|g| + |rest|) == Some(w) && (w == 43 || |rest| < w)
    ensures w in InverseIntervals && InverseIntervals[w] % 4 == 0
    ensures dec.requires(g, InverseIntervals[w]) && dec(g, InverseIntervals[w]) == Success(b[..ChunkSize(|b|)])
  {
    var c := ChunkSize(|b|);
    var x, y := b[..c], b[c..];
    assert x + y == b;
    EncodeLoopShape(b, enc);
    EncodeLoopUncons(b, enc);
    EncodeLoopShape(y, enc);
    g, rest := enc(x, c).value, EncodeLoop(y, enc).value;
    EncodedWidthIsGreedy(|b|, |rest|);
    EncodedChunk(x, enc, dec);
    w := Intervals[c];
  }

  /** Decoding what the loop encoded recovers the buffer. */
  lemma {:induction false} DecodeEncodeLoop(b: seq<Byte>, oldC: nat, enc: (seq<Byte>, nat) -> Result<string>, dec: (string, nat) --> Result<seq<Byte>>)
    requires ChunkEncoder(enc) && AcceptsGroups(dec) && ChunksRoundTrip(enc, dec)
    requires |b| % 4 == 0
    ensures EncodeLoop(b, enc).Success? && Over(EncodeLoop(b, enc).value, LEX)
    ensures oldC == 43 || |EncodeLoop(b, enc).value| < oldC ==> DecodeLoop(EncodeLoop(b, enc).value, oldC, dec) == Success(b)
    decreases |b|
  {
    EncodeLoopShape(b, enc);
    if |b| > 0 {
      var g, rest, w := EncodeStepFacts(b, enc, dec);
      DecodeEncodeLoop(b[ChunkSize(|b|)..], w, enc, dec);
      if oldC == 43 || |g + rest| < oldC {
        DecodeLoopCons(g, rest, oldC, dec);
      }
    }
  }

  /** Re-encoding what the loop decoded gives the text back. */
  lemma {:induction false} EncodeDecodeLoop(s: string, oldC: nat, enc: (seq<Byte>, nat) -> Result<string>, dec: (string, nat) --> Result<seq<Byte>>)
    requires ChunkEncoder(enc) && ChunkDecoder(dec) && GroupsRoundTrip(enc, dec)
    requires Over(s, LEX) && DecodeLoop(s, oldC, dec).Success?
    ensures EncodeLoop(DecodeLoop(s, oldC, dec).value, enc) == Success(s)
    decreases |s|
  {
    if |s| > 0 {
      if |s| < 6 {
        ShortLeftoverFails(s, oldC, dec);
      }
      GreedyStep(|s|);
      var c := GreedyKey(|s|).value;
      var g, tail := s[..c], s[c..];
      assert g + tail == s;
      DecodeLoopUncons(s, oldC, dec);
      var t := InverseIntervals[c];
      var chunk := dec(g, t).value;
      var rest := DecodeLoop(tail, c, dec).value;
      EncodeDecodeLoop(tail, c, enc, dec);
      DecodeLoopLength(tail, c, dec);
      DecodedChunkIsEncoderChunk(|s|, |rest|);
      EncodeLoopCons(chunk, rest, enc);
    }
  }

  /** Round trip: every buffer whose length is a multiple of 4 decodes from its encoding. */
  lemma RoundTrip(b: seq<Byte>)
    requires |b| % 4 == 0
    ensures Encode(b).Success? && Decode(Encode(b).value) == Success(b)
  {
    EncodeChunkIsChunkEncoder();
    ChunkCodecRoundTrips();
    DecodeEncodeLoop(b, 43, EncodeChunk, DecodeChunk);
    LexIsAlphabet();
    AlnumOver(LEX, Encode(b).value);
  }

  /** Every text the decoder accepts is the encoding of what it decodes to: the codec is a bijection. */
  lemma EncodeDecode(s: string)
    requires Decode(s).Success?
    ensures Encode(Decode(s).value) == Success(s)
  {
    LexIsAlphabet();
    AlnumOver(LEX, s);
    EncodeChunkIsChunkEncoder();
    DecodeChunkIsChunkDecoder();
    ChunkCodecRoundTrips();
    EncodeDecodeLoop(s, 43, EncodeChunk, DecodeChunk);
  }

  // ---------------------------------------------------------------- order

  /** The lexicographic alphabet's symbols rise with their digits. */
  lemma LexOrder(d: int, e: int)
    requires 0 <= d < 62 && 0 <= e < 62
    ensures LEX[d] < LEX[e] <==> d < e
    ensures LEX[d] == LEX[e] <==> d == e
  {
    LexAscending();
  }

  /** Spelling digits in the lexicographic alphabet keeps their order. */
  lemma SpellKeepsOrder(x: seq<int>, y: seq<int>)
    requires IsDigits(x, 62) && IsDigits(y, 62)
    ensures StringLess(Spell(LEX, x), Spell(LEX, y)) <==> Less(x, y)
  {
    var u, v := Codes(Spell(LEX, x)), Codes(Spell(LEX, y));
    forall i, j | 0 <= i < |x| && 0 <= j < |y|
      ensures (u[i] < v[j] <==> x[i] < y[j]) && (u[i] == v[j] <==> x[i] == y[j])
    {
      LexOrder(x[i], y[j]);
    }
    LessMap(x, y, u, v);
  }

  /** Chunks of one size sort as their groups do. */
  lemma ChunkKeepsOrder(x: seq<Byte>, y: seq<Byte>, c: nat)
    requires |x| == c && |y| == c && c in Intervals
    ensures EncodeChunk(x, c).Success? && EncodeChunk(y, c).Success?
    ensures StringLess(EncodeChunk(x, c).value, EncodeChunk(y, c).value) <==> Less(x, y)
  {
    EncodeChunkIsGroup(x, c);
    EncodeChunkIsGroup(y, c);
    IntervalsAreWidths(c);
    WidthIsLeast(c);
    var w, n, m := Width(c), BytesToNat(x), BytesToNat(y);
    var dx, dy := ToDigits(n, 62, w), ToDigits(m, 62, w);
    FromDigitsToDigits(n, 62, w);
    FromDigitsToDigits(m, 62, w);
    LessIsSmallerValue(dx, dy, 62);
    BytesKeepOrder(x, y);
    SpellKeepsOrder(dx, dy);
  }

  /** Big-endian buffers of one length sort as their values do. */
  lemma BytesKeepOrder(x: seq<Byte>, y: seq<Byte>)
    requires |x| == |y|
    ensures Less(x, y) <==> BytesToNat(x) < BytesToNat(y)
  {
    assert IsDigits(x, 256) && IsDigits(y, 256);
    LessIsSmallerValue(x, y, 256);
  }

  /** Only equal chunks share a group. */
  lemma ChunkInjective(x: seq<Byte>, y: seq<Byte>, c: nat)
    requires |x| == c && |y| == c && c in Intervals
    ensures EncodeChunk(x, c).Success? && EncodeChunk(y, c).Success?
    ensures EncodeChunk(x, c).value == EncodeChunk(y, c).value <==> x == y
  {
    if EncodeChunk(x, c).value == EncodeChunk(y, c).value {
      ChunkRoundTrip(x, c);
      ChunkRoundTrip(y, c);
    }
  }

  /** The first chunk of an aligned buffer and the rest, as the encoder's loop splits them. */
  lemma OrderStepFacts(a: seq<Byte>) returns (a1: seq<Byte>, a2: seq<Byte>, g: string, rest: string)
    requires |a| > 0 && |a| % 4 == 0
    ensures a == a1 + a2 && |a1| == ChunkSize(|a|) && |a1| in Intervals && |a2| % 4 == 0
    ensures EncodeChunk(a1, |a1|).Success? && g == EncodeChunk(a1, |a1|).value
    ensures EncodeLoop(a2, EncodeChunk).Success? && rest == EncodeLoop(a2, EncodeChunk).value
    ensures EncodeLoop(a, EncodeChunk).Success? && EncodeLoop(a, EncodeChunk).value == g + rest
  {
    var c := ChunkSize(|a|);
    ChunkSizeAligned(|a|);
    EncodesAligned(a);
    EncodeLoopUncons(a, EncodeChunk);
    a1, a2 := a[..c], a[c..];
    TakeDrop(a, c);
    g, rest := EncodeChunk(a1, c).value, EncodeLoop(a2, EncodeChunk).value;
  }

  lemma EncodesAligned(a: seq<Byte>)
    requires |a| % 4 == 0
    ensures EncodeLoop(a, EncodeChunk).Success?
  {
    EncodeChunkIsChunkEncoder();
    EncodeLoopShape(a, EncodeChunk);
  }

  /** The encoder's loop on buffers of one aligned length keeps their order. */
  lemma {:induction false} EncodeLoopKeepsOrder(a: seq<Byte>, b: seq<Byte>)
    requires |a| == |b| && |a| % 4 == 0
    ensures EncodeLoop(a, EncodeChunk).Success? && EncodeLoop(b, EncodeChunk).Success?
    ensures StringLess(EncodeLoop(a, EncodeChunk).value, EncodeLoop(b, EncodeChunk).value) <==> Less(a, b)
    decreases |a|
  {
    if |a| > 0 {
      var a1, a2, g, ra := OrderStepFacts(a);
      var b1, b2, h, rb := OrderStepFacts(b);
      ChunkKeepsOrder(a1, b1, |a1|);
      ChunkInjective(a1, b1, |a1|);
      EncodeLoopKeepsOrder(a2, b2);
      CodesAppend(g, ra);
      CodesAppend(h, rb);
      CodesInjective(g, h);
      LessAppend(Codes(g), Codes(ra), Codes(h), Codes(rb));
      LessAppend(a1, a2, b1, b2);
    } else {
      assert a == b == [];
    }
  }

  /** With the ASCII-ordered alphabet, buffers of one length sort as their encodings do. */
  lemma EncodeKeepsOrder(a: seq<Byte>, b: seq<Byte>)
    requires |a| == |b| && |a| % 4 == 0
    ensures Encode(a).Success? && Encode(b).Success?
    ensures StringLess(Encode(a).value, Encode(b).value) <==> Less(a, b)
  {
    EncodeLoopKeepsOrder(a, b);
  }
}
