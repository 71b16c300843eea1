/**
 * The Go port: the same scheme as the Rust port, written as loops over
 * `math/big` integers. The encoder's output is the Rust encoder's. The
 * decoder differs in one place: a group length missing from `invM` reads as
 * chunk size 0 instead of being refused.
 */
module GoCodec {
  import opened Radix
  import opened Alphabet
  import opened Outcomes
  import opened Widths
  import opened Groups
  import RustCodec

  // ---------------------------------------------------------------- encoder

  /** The shift-or loop: `n <<= 8` leaves the low 8 bits zero, so or-ing in the byte adds it. */
  method ChunkValue(buffer: seq<Byte>) returns (n: nat)
    ensures n == BytesToNat(buffer)
  {
    n := 0;
    var i := 0;
    while i < |buffer|
      invariant 0 <= i <= |buffer|
      invariant n == BytesToNat(buffer[..i])
    {
      assert buffer[..i + 1] == buffer[..i] + [buffer[i]];
      FromDigitsSnoc(buffer[..i], buffer[i], 256);
      n := n * 256 + buffer[i];
      i := i + 1;
    }
    assert buffer[..i] == buffer;
  }

  /** Peeling the lowest digit off a positive value. */
  lemma MinimalDigitsSnoc(m: nat)
    requires m > 0
    ensures MinimalDigits(m, 62) == MinimalDigits(m / 62, 62) + [m % 62]
  {
    if MinimalDigits(m / 62, 62) == [] {
      assert [] + [m % 62] == [m % 62];
    }
  }

  /** Prepending the symbol of the lowest digit, then dividing by 62, keeps the spelled value in front of the result. */
  lemma PrependDigit(m: nat, result: string)
    requires m > 0
    ensures Spell(B64, MinimalDigits(m / 62, 62)) + ([B64[m % 62]] + result) == Spell(B64, MinimalDigits(m, 62)) + result
  {
    var hi, d := MinimalDigits(m / 62, 62), m % 62;
    MinimalDigitsSnoc(m);
    SpellAppend(B64, hi, [d]);
    var sh := Spell(B64, hi);
    assert Spell(B64, [d]) == [B64[d]];
    AppendAssoc(sh, [B64[d]], result);
  }

  /** The pad count `M[c] - len(result)` is never negative: a chunk's value has at most `M[c]` significant digits. */
  lemma PadCountNonNegative(buffer: seq<Byte>)
    requires 1 <= |buffer| <= N
    ensures |MinimalDigits(BytesToNat(buffer), 62)| <= Width(|buffer|)
  {
    WidthIsLeast(|buffer|);
    MinimalDigitsFit(BytesToNat(buffer), 62, Width(|buffer|));
  }

  /**
   * `_arrayBufferToBase62`: the shift-or loop, then the `DivMod` loop
   * prepending one symbol per digit, then `M[c] - len(result)` copies of
   * `b62[0]` in front.
   */
  method EncodeChunk(buffer: seq<Byte>, c: nat) returns (s: string)
    requires |buffer| == c && 1 <= c <= N
    ensures s == EncodeGroup(B64, buffer, Width(c))
  {
    var n := ChunkValue(buffer);
    var result := "";
    var m := n;
    B64IsAlphabet();
    while m > 0
      invariant Spell(B64, MinimalDigits(m, 62)) + result == Spell(B64, MinimalDigits(n, 62))
      decreases m
    {
      PrependDigit(m, result);
      result := [B64[m % 62]] + result;
      m := m / 62;
    }
    assert result == Spell(B64, MinimalDigits(n, 62));
    PadCountNonNegative(buffer);
    s := Repeat(B64[0], Width(c) - |result|) + result;
    assert s == PadLeft(result, Width(c), 'A') by {
      if |result| == Width(c) {
        assert Repeat(B64[0], 0) + result == result;
      }
    }
    WidthIsLeast(c);
    PaddedDigitsIsGroup(B64, buffer, Width(c));
  }

  /** Peeling the chunk at `i` off the rest of the buffer. */
  lemma EncodeStep(buffer: seq<Byte>, i: nat, c: nat)
    requires i < |buffer| && c == Min(|buffer| - i, N)
    ensures 1 <= |buffer[i..i + c]| <= N
    ensures RustCodec.Encode(buffer[i..])
         == EncodeGroup(B64, buffer[i..i + c], Width(c)) + RustCodec.Encode(buffer[i + c..])
  {
    var rest, x, y := buffer[i..], buffer[i..i + c], buffer[i + c..];
    assert |rest| == |buffer| - i && Min(|rest|, N) == c;
    RustCodec.EncodeUncons(rest);
    assert rest[..c] == x by {
      SliceOfSuffix(buffer, i, c);
    }
    assert rest[c..] == y;
    RustCodec.EncodeChunkIsGroup(x);
  }

  lemma SliceOfSuffix<T>(b: seq<T>, i: nat, c: nat)
    requires i + c <= |b|
    ensures b[i..][..c] == b[i..i + c]
  {
  }

  /** `ArrayBufferToBase62`: chunks of `min(bufLen - i, N)` bytes; the output is the Rust encoder's. */
  method Encode(buffer: seq<Byte>) returns (s: string)
    ensures s == RustCodec.Encode(buffer)
  {
    s := "";
    var i := 0;
    while i < |buffer|
      invariant 0 <= i <= |buffer|
      invariant s + RustCodec.Encode(buffer[i..]) == RustCodec.Encode(buffer)
      decreases |buffer| - i
    {
      var c := N;
      if |buffer| - i < N {
        c := |buffer| - i;
      }
      var next := i + c;
      EncodeStep(buffer, i, c);
      var g := EncodeChunk(buffer[i..next], c);
      ghost var pending := RustCodec.Encode(buffer[next..]);
      AppendAssoc(s, g, pending);
      s := s + g;
      i := next;
      assert s + pending == RustCodec.Encode(buffer);
    }
    assert buffer[i..] == [];
  }

  // ---------------------------------------------------------------- decoder

  /**
   * What `_base62ToArrayBuffer` computes for a string over the alphabet: the
   * value is refused at `2^(8t)` or above, otherwise it becomes `t` bytes.
   * A character outside the alphabet never reaches it (the caller's regular
   * expression rejects it); it is a failure here so that the function is total.
   */
  function ChunkSpec(s: string, t: nat): (r: Result<seq<Byte>>)
    ensures r.Failure? <==> !Over(s, B64) || GroupValue(B64, s) >= Pow(256, t)
    ensures r.Success? ==> |r.value| == t && BytesToNat(r.value) == GroupValue(B64, s)
  {
    if !Over(s, B64) then Failure(UnknownDigit)
    else if GroupValue(B64, s) >= Pow(256, t) then Failure(Overflow)
    else
      ValueOfNatToBytes(GroupValue(B64, s), t);
      Success(NatToBytes(GroupValue(B64, s), t))
  }

  /** Reading one more symbol. */
  lemma ReadSnoc(s: string, i: nat)
    requires Over(s, B64) && i < |s|
    ensures Over(s[..i], B64) && Over(s[..i + 1], B64)
    ensures Read(B64, s[..i + 1]) == Read(B64, s[..i]) + [IndexOf(B64, s[i])]
  {
    assert s[..i + 1] == s[..i] + [s[i]];
  }

  /** `n = n * 62 + IndexRune(b62, s[i])` over the group: its value. */
  method ReadValue(s: string) returns (n: nat)
    requires Over(s, B64)
    ensures n == GroupValue(B64, s)
  {
    n := 0;
    var i := 0;
    while i < |s|
      invariant 0 <= i <= |s| && Over(s[..i], B64)
      invariant n == FromDigits(Read(B64, s[..i]), 62)
    {
      ReadSnoc(s, i);
      FromDigitsSnoc(Read(B64, s[..i]), IndexOf(B64, s[i]), 62);
      n := n * 62 + IndexOf(B64, s[i]);
      i := i + 1;
    }
    assert s[..i] == s;
  }

  /** Writing the low byte of `m` at `k - 1` moves one digit from the pending value into the buffer. */
  lemma WriteLowByte(buffer: seq<Byte>, k: nat, m: nat)
    requires 1 <= k <= |buffer|
    ensures ToDigits(m / 256, 256, k - 1) + buffer[k - 1 := m % 256][k - 1..]
         == ToDigits(m, 256, k) + buffer[k..]
  {
    var b := buffer[k - 1 := m % 256];
    assert b[k - 1..] == [m % 256] + buffer[k..];
    AppendAssoc(ToDigits(m / 256, 256, k - 1), [m % 256], buffer[k..]);
  }

  /** From the last byte backwards, `n & 0xFF` then `n >>= 8`: the `t` low-order bytes of `n`. */
  method WriteBytes(n: nat, t: nat) returns (buffer: seq<Byte>)
    ensures buffer == NatToBytes(n, t)
  {
    buffer := Repeat(0, t);
    var k := t;
    var m := n;
    assert buffer[k..] == [];
    while k > 0
      invariant 0 <= k <= t && |buffer| == t
      invariant ToDigits(m, 256, k) + buffer[k..] == ToDigits(n, 256, t)
    {
      WriteLowByte(buffer, k, m);
      buffer := buffer[k - 1 := m % 256];
      m := m / 256;
      k := k - 1;
    }
  }

  /**
   * `_base62ToArrayBuffer`: the group's value, refused when
   * `n >= 1 << (t * 8)`, else written into a `t`-byte buffer. The caller has
   * checked the characters, so every index is non-negative.
   */
  method DecodeChunk(s: string, t: nat) returns (r: Result<seq<Byte>>)
    requires Over(s, B64)
    ensures r == ChunkSpec(s, t)
  {
    var n := ReadValue(s);
    ByteRange(t);
    if n >= Pow(2, t * 8) {
      return Failure(Overflow);
    }
    var buffer := WriteBytes(n, t);
    r := Success(buffer);
  }

  /**
   * `invM[c]`: a length with no chunk size reads as the map's zero value.
   * A non-zero result is the chunk size whose table entry is `c`, and the
   * result is zero exactly when no chunk size has that entry.
   */
  function LookupOrZero(c: nat): (t: nat)
    ensures t >= 1 ==> t <= N && Width(t) == c
    ensures t == 0 <==> forall x :: 1 <= x <= N ==> Width(x) != c
    ensures InvWidth(c).Some? ==> t == InvWidth(c).value
    ensures InvWidth(c).None? ==> t == 0
  {
    match InvWidth(c)
    case Some(t) => t
    case None => 0
  }

  /** The chunk decoder is defined on every input. */
  ghost predicate Total(dec: (string, nat) --> Result<seq<Byte>>) {
    forall g: string, t: nat :: dec.requires(g, t)
  }

  /**
   * The loop of `Base62ToArrayBuffer` as written, for a chunk decoder `dec`:
   * groups of `min(len(s) - i, maxChunk)` characters decoded with
   * `invM[c]` bytes, where a missing length gives 0.
   */
  function DecodeGroups(s: string, dec: (string, nat) --> Result<seq<Byte>>): Result<seq<Byte>>
    requires Total(dec)
    decreases |s|
  {
    if |s| == 0 then Success([])
    else
      var c := Min(|s|, MaxChunk);
      match dec(s[..c], LookupOrZero(c))
      case Failure(e) => Failure(e)
      case Success(chunk) =>
        match DecodeGroups(s[c..], dec)
        case Failure(e) => Failure(e)
        case Success(rest) => Success(chunk + rest)
  }

  /** `Base62ToArrayBuffer` as written: the regular expression `^[0-9A-Za-z]*$`, then the group loop. */
  function DecodeSpec(s: string): (r: Result<seq<Byte>>)
    ensures r.Failure? && r.error == NotAlphanumeric <==> !AllAlnum(s)
  {
    if !AllAlnum(s) then Failure(NotAlphanumeric)
    else
      B64IsAlphabet();
      AlnumOver(B64, s);
      DecodeGroupsErrors(s);
      DecodeGroups(s, ChunkSpec)
  }

  /** Over the alphabet, the chunk decoder fails only on overflow. */
  lemma {:induction false} DecodeGroupsErrors(s: string)
    requires Over(s, B64)
    ensures DecodeGroups(s, ChunkSpec).Failure? ==> DecodeGroups(s, ChunkSpec).error == Overflow
    decreases |s|
  {
    if |s| > 0 {
      var c := Min(|s|, MaxChunk);
      RustCodec.OverSuffix(s, c);
      assert Over(s[..c], B64);
      DecodeGroupsErrors(s[c..]);
    }
  }

  /** `copy(dst[at:], src)`: copies as many bytes as fit and leaves the rest of `dst` alone. */
  function Copy(dst: seq<Byte>, at: nat, src: seq<Byte>): (r: seq<Byte>)
    requires at <= |dst|
    ensures |r| == |dst|
  {
    var k := Min(|dst| - at, |src|);
    dst[..at] + src[..k] + dst[at + k..]
  }

  /** Position by position: `src` over `dst` from `at` on, as far as `dst` reaches; `dst` elsewhere. */
  lemma CopyContents(dst: seq<Byte>, at: nat, src: seq<Byte>, i: nat)
    requires at <= |dst| && i < |dst|
    ensures Copy(dst, at, src)[i] == if at <= i < at + |src| then src[i - at] else dst[i]
  {
  }

  /** The bytes so far in front of the outcome of the rest. */
  function Prepend(p: seq<Byte>, r: Result<seq<Byte>>): (q: Result<seq<Byte>>)
    ensures q.Failure? <==> r.Failure?
    ensures q.Failure? ==> q.error == r.error
    ensures q.Success? ==> q.value == p + r.value
  {
    match r
    case Success(v) => Success(p + v)
    case Failure(e) => Failure(e)
  }

  lemma PrependEmpty(r: Result<seq<Byte>>)
    ensures Prepend([], r) == r
  {
    if r.Success? {
      assert [] + r.value == r.value;
    }
  }

  lemma PrependPrepend(a: seq<Byte>, b: seq<Byte>, r: Result<seq<Byte>>)
    ensures Prepend(a, Prepend(b, r)) == Prepend(a + b, r)
  {
    if r.Success? {
      AppendAssoc(a, b, r.value);
    }
  }

  /** Copying a chunk that fits puts it right after the first `at` bytes. */
  lemma CopyPrefix(dst: seq<Byte>, at: nat, src: seq<Byte>)
    requires at + |src| <= |dst|
    ensures Copy(dst, at, src)[..at + |src|] == dst[..at] + src
  {
    var r := Copy(dst, at, src);
    assert r[..at + |src|] == dst[..at] + src[..|src|];
    assert src[..|src|] == src;
  }

  /** `copy(result[j:], newBuf)` for a chunk that fits: the chunk lands right after the first `at` bytes. */
  method CopyAt(dst: seq<Byte>, at: nat, src: seq<Byte>) returns (r: seq<Byte>)
    requires at + |src| <= |dst|
    ensures |r| == |dst|
    ensures r[..at + |src|] == dst[..at] + src && r[at + |src|..] == dst[at + |src|..]
  {
    r := Copy(dst, at, src);
    CopyPrefix(dst, at, src);
  }

  /** A group of `c` characters gives at most `6c / 8` bytes: `256^t <= 62^c < 64^c` means `4t < 3c`. */
  lemma GroupDensity(c: nat)
    ensures 8 * LookupOrZero(c) <= 6 * c
  {
    if InvWidth(c).Some? {
      WidthDensity(InvWidth(c).value);
    }
  }

  lemma FloorBound(a: nat, m: nat)
    requires 8 * a <= m
    ensures a <= m / 8
  {
    DivModUnique(m, 8, m / 8, m % 8);
  }

  /** One group at `i`: its chunk in front of the outcome of the rest, or its failure. */
  lemma DecodeStep(s: string, i: nat, c: nat)
    requires i < |s| && c == Min(|s| - i, MaxChunk)
    ensures i + c <= |s| && s[i..][..c] == s[i..i + c] && s[i..][c..] == s[i + c..]
    ensures ChunkSpec(s[i..i + c], LookupOrZero(c)).Failure? ==>
              DecodeGroups(s[i..], ChunkSpec) == Failure(ChunkSpec(s[i..i + c], LookupOrZero(c)).error)
    ensures ChunkSpec(s[i..i + c], LookupOrZero(c)).Success? ==>
              DecodeGroups(s[i..], ChunkSpec)
              == Prepend(ChunkSpec(s[i..i + c], LookupOrZero(c)).value, DecodeGroups(s[i + c..], ChunkSpec))
  {
    var rest := s[i..];
    assert |rest| == |s| - i && Min(|rest|, MaxChunk) == c;
    SliceOfSuffix(s, i, c);
    assert rest[c..] == s[i + c..];
  }

  /** The `len(s) * 6 / 8` bytes preallocated for the output. */
  function Capacity(s: string): nat {
    |s| * 6 / 8
  }

  /** One pass of the group loop at `i`: `c = min(len(s) - i, maxChunk)` characters decoded with `invM[c]` bytes. */
  method DecodeGroupAt(s: string, i: nat) returns (c: nat, chunk: Result<seq<Byte>>)
    requires i < |s| && Over(s[i..], B64)
    ensures 1 <= c <= |s| - i && Over(s[i + c..], B64)
    ensures chunk.Failure? ==> DecodeGroups(s[i..], ChunkSpec) == Failure(chunk.error)
    ensures chunk.Success? ==> 8 * |chunk.value| <= 6 * c
    ensures chunk.Success? ==>
              DecodeGroups(s[i..], ChunkSpec) == Prepend(chunk.value, DecodeGroups(s[i + c..], ChunkSpec))
  {
    c := MaxChunk;
    if |s| - i < MaxChunk {
      c := |s| - i;
    }
    DecodeStep(s, i, c);
    RustCodec.OverSuffix(s[i..], c);
    var t := LookupOrZero(c);
    chunk := DecodeChunk(s[i..i + c], t);
    GroupDensity(c);
  }

  /**
   * The group loop of `Base62ToArrayBuffer`: the output buffer is
   * preallocated with `len(s) * 6 / 8` bytes, every group is copied in at
   * `j`, and the result is `result[:j]`. The copies never run out of room.
   */
  method DecodeLoop(s: string) returns (r: Result<seq<Byte>>)
    requires Over(s, B64)
    ensures r == DecodeGroups(s, ChunkSpec)
  {
    ghost var whole := DecodeGroups(s, ChunkSpec);
    var result: seq<Byte> := Repeat(0, Capacity(s));
    var j: nat := 0;
    var i: nat := 0;
    PrependEmpty(whole);
    while i < |s|
      invariant 0 <= i <= |s| && |result| == Capacity(s)
      invariant 8 * j <= 6 * i && j <= |result|
      invariant Over(s[i..], B64)
      invariant whole == Prepend(result[..j], DecodeGroups(s[i..], ChunkSpec))
      decreases |s| - i
    {
      var c, chunk := DecodeGroupAt(s, i);
      if chunk.Failure? {
        return Failure(chunk.error);
      }
      FloorBound(j + |chunk.value|, |s| * 6);
      var next := i + c;
      ghost var pending := DecodeGroups(s[next..], ChunkSpec);
      ghost var done := result[..j] + chunk.value;
      PrependPrepend(result[..j], chunk.value, pending);
      assert whole == Prepend(done, pending);
      result := CopyAt(result, j, chunk.value);
      j := j + |chunk.value|;
      i := next;
      assert result[..j] == done;
    }
    assert s[i..] == "";
    assert result[..j] + [] == result[..j];
    r := Success(result[..j]);
  }

  /** `Base62ToArrayBuffer` as written: the regular expression, then the group loop. */
  method Decode(s: string) returns (r: Result<seq<Byte>>)
    ensures r == DecodeSpec(s)
  {
    if !AllAlnum(s) {
      return Failure(NotAlphanumeric);
    }
    B64IsAlphabet();
    AlnumOver(B64, s);
    r := DecodeLoop(s);
  }

  // ---------------------------------------------------------------- properties

  /** For a chunk size of at least one byte, the Go and Rust chunk decoders agree. */
  lemma ChunkSpecIsRust(g: string, t: nat)
    requires t >= 1
    ensures ChunkSpec(g, t) == RustCodec.DecodeChunk(g, t)
  {
    if Over(g, B64) && GroupValue(B64, g) < Pow(256, t) {
      RustCodec.DecodeChunkIsBytes(g, t);
    }
  }

  /** Where every group length has a chunk size, the as-written loop is the Rust loop. */
  lemma {:induction false} DecodeGroupsIsRust(s: string, dec: (string, nat) --> Result<seq<Byte>>)
    requires Total(dec)
    ensures !RustCodec.BadTail(|s|) ==> DecodeGroups(s, dec) == RustCodec.DecodeGroups(s, dec)
    decreases |s|
  {
    if |s| > 0 {
      var c := Min(|s|, MaxChunk);
      RustCodec.BadTailStep(|s|);
      DecodeGroupsIsRust(s[c..], dec);
    }
  }

  /** Go's chunk decoder and Rust's give the same Rust loop. */
  lemma RustLoopWithGoChunks(s: string)
    requires Over(s, B64)
    ensures RustCodec.AcceptsSizes(ChunkSpec)
    ensures RustCodec.DecodeGroups(s, ChunkSpec) == RustCodec.DecodeGroups(s, RustCodec.DecodeChunk)
  {
    RustCodec.DecodeChunkIsChunkDecoder();
    forall g: string, t: nat | t >= 1 && Over(g, B64)
      ensures ChunkSpec(g, t) == RustCodec.DecodeChunk(g, t)
    {
      ChunkSpecIsRust(g, t);
    }
    RustCodec.DecodeGroupsAgree(s, ChunkSpec, RustCodec.DecodeChunk);
  }

  /** Unless the length ends in a bad tail, the Go decoder as written decodes exactly as the Rust one. */
  lemma DecodeSpecIsRust(s: string)
    ensures !RustCodec.BadTail(|s|) ==> DecodeSpec(s) == RustCodec.Decode(s)
  {
    if AllAlnum(s) {
      B64IsAlphabet();
      AlnumOver(B64, s);
      DecodeGroupsIsRust(s, ChunkSpec);
      RustLoopWithGoChunks(s);
    }
  }

  /** Decoding a Go encoding recovers the buffer. */
  lemma RoundTrip(b: seq<Byte>)
    ensures DecodeSpec(RustCodec.Encode(b)) == Success(b)
  {
    RustCodec.EncodeLength(b);
    RustCodec.EncodedLengthIsGood(|b|);
    DecodeSpecIsRust(RustCodec.Encode(b));
    RustCodec.RoundTrip(b);
  }

  /** The decoded bytes always fit the `len(s) * 6 / 8` buffer. */
  lemma {:induction false} DecodedFits(s: string)
    requires Over(s, B64)
    ensures DecodeGroups(s, ChunkSpec).Success? ==> 8 * |DecodeGroups(s, ChunkSpec).value| <= 6 * |s|
    decreases |s|
  {
    if |s| > 0 {
      var c := Min(|s|, MaxChunk);
      RustCodec.OverSuffix(s, c);
      assert Over(s[..c], B64);
      GroupDensity(c);
      DecodedFits(s[c..]);
    }
  }

  // ---------------------------------------------------------------- finding

  /**
   * The as-written decoder accepts text the encoder never writes: "A" has
   * length 1, which is no entry of `M`; `invM[1]` reads as 0, the group's
   * value 0 fits in 0 bytes, and the result is the empty buffer, whose
   * encoding is "". The Rust decoder refuses "A".
   */
  lemma LoneZeroAccepted()
    ensures DecodeSpec("A") == Success([])
    ensures RustCodec.Decode("A") == Failure(UnknownGroupLength)
    ensures RustCodec.Encode(DecodeSpec("A").value) != "A"
  {
    B64Codes();
    assert "A"[..1] == "A" && "A"[1..] == "";
    assert Over("A", B64) by {
      assert B64[0] == 'A';
    }
    var ds := Read(B64, "A");
    IndexOfSymbol(B64, 0);
    B64IsAlphabet();
    assert ds == [0];
    assert [0][..0] == [];
    assert GroupValue(B64, "A") == 0;
    InvWidthClosedForm(1);
    assert LookupOrZero(1) == 0;
    assert Pow(256, 0) == 1;
    assert ChunkSpec("A", 0) == Success([]);
    assert DecodeGroups("", ChunkSpec) == Success([]);
    var none: seq<Byte> := [];
    assert none + none == none;
    assert DecodeGroups("A", ChunkSpec) == Success(none);
    assert AllAlnum("A");
    assert DecodeSpec("A") == DecodeGroups("A", ChunkSpec);
  }

  /**
   * A group whose length has no chunk size is decoded into 0 bytes: it is
   * accepted, as the empty chunk, exactly when its value is 0 (all zero
   * symbols), and refused as an overflow otherwise.
   */
  lemma UnlistedLength(g: string)
    requires Over(g, B64) && InvWidth(|g|).None?
    ensures ChunkSpec(g, LookupOrZero(|g|)).Success? <==> GroupValue(B64, g) == 0
    ensures ChunkSpec(g, LookupOrZero(|g|)).Success? ==> ChunkSpec(g, LookupOrZero(|g|)).value == []
    ensures ChunkSpec(g, LookupOrZero(|g|)).Failure? ==> ChunkSpec(g, LookupOrZero(|g|)).error == Overflow
  {
    assert Pow(256, 0) == 1;
  }

  /** The corrected decoder: a group length with no chunk size is refused, as in the Rust port. */
  function DecodeChecked(s: string): (r: Result<seq<Byte>>)
    ensures r.Failure? && r.error == NotAlphanumeric <==> !AllAlnum(s)
  {
    if !AllAlnum(s) then Failure(NotAlphanumeric)
    else
      B64IsAlphabet();
      AlnumOver(B64, s);
      RustLoopWithGoChunks(s);
      RustCodec.DecodeChunkIsChunkDecoder();
      RustCodec.DecodeGroupsErrors(s, RustCodec.DecodeChunk);
      RustCodec.DecodeGroups(s, ChunkSpec)
  }

  /** The corrected decoder is the Rust decoder. */
  lemma DecodeCheckedIsRust(s: string)
    ensures DecodeChecked(s) == RustCodec.Decode(s)
  {
    if AllAlnum(s) {
      B64IsAlphabet();
      AlnumOver(B64, s);
      RustLoopWithGoChunks(s);
    }
  }

  /** The corrected decoder inverts the encoder and is exact: it accepts only encodings. */
  lemma DecodeCheckedExact(b: seq<Byte>, s: string)
    ensures DecodeChecked(RustCodec.Encode(b)) == Success(b)
    ensures DecodeChecked(s).Success? ==> RustCodec.Encode(DecodeChecked(s).value) == s
  {
    DecodeCheckedIsRust(RustCodec.Encode(b));
    RustCodec.RoundTrip(b);
    DecodeCheckedIsRust(s);
    if DecodeChecked(s).Success? {
      RustCodec.EncodeDecode(s);
    }
  }
}
