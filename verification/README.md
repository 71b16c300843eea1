# Base62 codec, modelled and proved in Dafny

This project models the base62 codec of the 384 library. The codec turns byte buffers into
text over the 62 ASCII letters and digits, and back. The repository implements the codec three
times. All three share the per-chunk arithmetic:

- a chunk of bytes is read as a big-endian unsigned integer;
- the integer is written in base 62, most significant digit first;
- the digits are left-padded with the alphabet's zero symbol to a fixed width.

The three drivers differ in their framing rules:

- **TypeScript reference** (`src/base62.ts`).
  - Alphabet: the lexicographic one, `0-9A-Za-z`.
  - The buffer length must be a multiple of 4.
  - Chunks are 32, 16, 8 or 4 bytes, written as 43, 22, 11 or 6 characters.
  - The decoder takes the widest group that still fits, and it checks that groups shorter than 43 keep shrinking.
- **Rust port** (`rust/src/base62.rs`).
  - Alphabet: the "base64" ordering, `A-Za-z0-9`.
  - Any buffer length is accepted.
  - The encoder cuts the buffer into 32-byte chunks and one shorter remainder.
  - A chunk of `x` bytes becomes `M(x)` characters, where `M(x)` is the fewest base-62 digits that hold every `8x`-bit value.
  - The decoder cuts the text into groups of `MAX_CHUNK = 43` characters and one shorter remainder.
  - A remainder length that is not a value of `M` is refused.
- **Go port** (`go/base62.go`).
  - The same scheme as Rust, written as loops over `math/big` integers.
  - A remainder length missing from the inverse table reads as chunk size 0 (see Findings).

Modules:

| module | file | contents |
|---|---|---|
| `Outcomes` | `outcomes.dfy` | `Option`, the `Error` kinds, `Result` |
| `Radix` | `radix.dfy` | powers, digit sequences (`FromDigits`, `ToDigits`, `MinimalDigits`, `PadLeft`, `DigitGroups`) and their lemmas |
| `Alphabet` | `alphabet.dfy` | the two alphabets, the alphanumeric check, `IndexOf`, spelling and reading digits |
| `Widths` | `widths.dfy` | the size table `M` in exact integer terms, its inverse, `MAX_CHUNK` |
| `Groups` | `groups.dfy` | bytes and their big-endian value, and the reference group of a chunk |
| `Lexicographic` | `lexicographic.dfy` | byte-wise and JavaScript string order |
| `TsCodec` | `ts_codec.dfy` | the TypeScript reference |
| `RustCodec` | `rust_codec.dfy` | the Rust port |
| `GoCodec` | `go_codec.dfy` | the Go port, with its loops as methods |

The source builds `M(x)` in floating point as `ceil(8x / log2 62)`. Here `M(x)` is the least
`y` with `256^x <= 62^y` (`Widths.MinWidth`). `Widths.Width(x) = x + 1 + floor(x / 3)` is proved
equal to it for every `x` from 1 to 32. The big integers are `nat`, bytes are `int`s in
`0..255`, and strings are `seq<char>`. Each source error becomes one `Error` kind inside a
`Failure`. The loops over chunks take the chunk codec as a parameter. A ghost predicate states
what the loop needs from that codec, and a lemma proves it once for the concrete one.

A single zero symbol is sometimes described as the encoding of one zero byte. The code does
not behave that way, and the model follows the code:

- one zero byte encodes to two symbols, because `M(1) = 2`;
- no chunk size maps to a one-character group;
- Rust refuses such a group, and the TypeScript decoder finds no group width for it (`TsCodec.ShortLeftoverFails`);
- Go decodes it to the empty buffer (`GoCodec.LoneZeroAccepted`).

## Model

| member | source | states |
|---|---|---|
| Alphabet.LexAscending | src/base62.ts:21-23 | the lexicographic alphabet's symbols strictly increase in ASCII, so digit order is character order |
| Alphabet.LexIsAlphabet | src/base62.ts:23-24 | `0-9A-Za-z` is 62 distinct symbols, exactly the characters the regular expression accepts, and its zero symbol is '0' |
| Alphabet.B64IsAlphabet | rust/src/base62.rs:20 | `A-Za-z0-9` is 62 distinct symbols, exactly the ASCII letters and digits, and its zero symbol is 'A' |
| Alphabet.AlnumOver | rust/src/base62.rs:110-112 | for either alphabet, passing the alphanumeric check is the same as every character being a symbol, so no later digit lookup can fail |
| Alphabet.IndexOf | go/base62.go:77 | the first position of a character in the alphabet, or -1 exactly when it is absent |
| Alphabet.IndexOfSymbol | src/base62.ts:66 | in an alphabet without repeats, looking up the symbol of digit `d` gives back `d` |
| Alphabet.ReadSpell | rust/src/base62.rs:57 | reading back the symbols of a digit sequence gives the digits |
| Alphabet.SpellRead | rust/src/base62.rs:86-90 | spelling the digits read from a string over the alphabet gives the string |
| Alphabet.SpellPadLeft | src/base62.ts:42 | padding the digits with 0 is padding the text with the alphabet's zero symbol |
| Groups.BytesToNat | rust/src/base62.rs:51 | a chunk's big-endian value is below `256^len` |
| Groups.NatToBytesValue | rust/src/base62.rs:99-104 | the `t` low-order bytes of `n` hold `n mod 256^t` |
| Groups.NatToBytesOfValue | rust/src/base62.rs:99-104 | writing a chunk's value back into as many bytes gives the chunk |
| Groups.ValueOfNatToBytes | rust/src/base62.rs:93-104 | a value below `256^t` survives being written into `t` bytes |
| Groups.EncodeGroup | rust/src/base62.rs:49-65 | a chunk's reference group has exactly the requested width and uses only alphabet symbols |
| Groups.GroupValue | rust/src/base62.rs:86-91 | a group's value is below `62^len` |
| Groups.PaddedDigits | rust/src/base62.rs:54-63 | the digit loop plus padding is at least the padded width and uses only alphabet symbols |
| Groups.PaddedDigitsIsGroup | rust/src/base62.rs:54-63 | when `256^len <= 62^w`, the significant digits padded to `w` are exactly `w` digits of the value: padding never truncates |
| Groups.GroupValueOfEncodeGroup | src/base62.ts:65-68 | reading a chunk's group gives back the chunk's value |
| Groups.EncodeGroupOfValue | rust/src/base62.rs:93-106 | the bytes of a group's value re-encode to the same group |
| Widths.LeastWidth | rust/src/base62.rs:32 | the search returns a width whose power covers the bound while one less does not |
| Widths.MinWidth | rust/src/base62.rs:32 | `M(x)` in exact terms: `256^x <= 62^y` and `62^(y-1) < 256^x` |
| Widths.WidthIsMin | rust/src/base62.rs:31-34 | the closed form `x + 1 + floor(x/3)` is the least width for every chunk size 1 to 32 |
| Widths.WidthIsLeast | go/base62.go:31-34 | each table entry covers every value of its chunk, and one digit fewer would not |
| Widths.WidthStrictlyIncreasing | rust/src/base62.rs:38-45 | the table strictly increases, so no two chunk sizes share a group length |
| Widths.WidthDensity | go/base62.go:95 | a chunk of `x` bytes takes more than `4x/3` characters: `4x < 3 M(x)` |
| Widths.MaxChunkIsWidest | rust/src/base62.rs:46 | `MAX_CHUNK` is `M(32) = 43`, the largest entry, reached only at 32 bytes |
| Widths.InvWidth | rust/src/base62.rs:38-45 | the inverse table gives a chunk size whose entry is `c`, or nothing when no chunk size has that entry |
| Widths.InvWidthOfWidth | go/base62.go:34 | the inverse table undoes the table exactly: no insertion overwrote another |
| Widths.InvWidthClosedForm | rust/src/base62.rs:117-122 | a group length has a chunk size exactly when it is at most 43 and neither 0, 1 nor a multiple of 4, and that size is `c - 1 - floor((c-1)/4)` |
| Lexicographic.CodesInjective | src/base62.ts:22 | two strings have the same sequence of character values exactly when they are equal |
| Lexicographic.LessAppend | src/base62.ts:22 | for fronts of one length, the order of two concatenations is decided by the fronts, and by the rests when the fronts are equal |
| Lexicographic.LessMap | src/base62.ts:22 | mapping both sequences through values that compare as the originals do keeps their order |
| Lexicographic.LessIsSmallerValue | src/base62.ts:22 | for digit sequences of one length, sorting first is the same as having the smaller value |
| TsCodec.IntervalsAreWidths | src/base62.ts:26-31 | the hard-coded widths 43/22/11/6 are the least widths for 32/16/8/4 bytes |
| TsCodec.InverseTables | src/base62.ts:32-33 | `inverseIntervals` inverts `intervals` both ways, and `inverseKeys` lists its keys in ascending order |
| TsCodec.FloorLog2 | src/base62.ts:52 | the exact `floor(log2 L)`: `2^r <= L < 2^(r+1)` |
| TsCodec.ChunkSizeIsLog2 | src/base62.ts:52 | the next chunk is `2 ** min(floor(log2 L), 5)` |
| TsCodec.ChunkSizeAligned | src/base62.ts:51-57 | for an aligned length the chunk is 4, 8, 16 or 32 bytes, the rest stays aligned, and a chunk below 32 leaves less than itself |
| TsCodec.ChunkSizesCover | src/base62.ts:51-57 | the chunks of an aligned length all have widths, none exceeds the length, and they add up to it |
| TsCodec.ChunkSizesDescend | src/base62.ts:51-57 | chunk sizes never increase |
| TsCodec.ChunkSizesShrink | src/base62.ts:51-57 | after a chunk below 32 bytes the next one is strictly smaller |
| TsCodec.EncodeChunk | src/base62.ts:35-43 | a chunk of the wrong length or size fails; otherwise the group has `intervals[c]` characters of the alphabet |
| TsCodec.EncodeChunkIsGroup | src/base62.ts:37-42 | a chunk's group is exactly `intervals[c]` base-62 digits of its value, left-padded with '0' |
| TsCodec.EncodeChunkIsChunkEncoder | src/base62.ts:35-43 | the concrete chunk encoder meets the loop's contract |
| TsCodec.ChunkStep | src/base62.ts:51-56 | one encoder step keeps alignment exactly when the length was aligned, and the chunk's width lies between 4/3 and 3/2 characters per byte |
| TsCodec.EncodeLoopShape | src/base62.ts:51-58 | the loop succeeds exactly on aligned buffers, fails only with the chunk guard, and writes 4/3 to 3/2 characters per byte over the alphabet |
| TsCodec.EncodeLoopUncons | src/base62.ts:51-57 | a successful encoding is the first chunk's group followed by the rest's encoding |
| TsCodec.EncodeLoopCons | src/base62.ts:51-57 | a chunk the loop takes first, before bytes that encode, encodes to its group followed by theirs |
| TsCodec.Encode | src/base62.ts:48-59 | the encoder fails exactly on unaligned buffers, so the chunk guard never fires; otherwise the output is over the alphabet with 4/3 to 3/2 characters per byte |
| TsCodec.Filter | src/base62.ts:94 | the filter keeps exactly the keys not above `R`, in ascending order when the keys were ascending |
| TsCodec.PopFit | src/base62.ts:94 | `filter(...).pop()` is the widest group width that fits, and is undefined exactly when fewer than 6 characters are left |
| TsCodec.GreedyKeyIsPopFit | src/base62.ts:94 | the width table used by the decoder is the source's filter-then-pop |
| TsCodec.WordsBEBytes | src/base62.ts:73-77 | the word loop writes the `4k`-byte big-endian representation of `n` |
| TsCodec.DecodeChunk | src/base62.ts:62-82 | a group fails exactly when its value is `2^(8t)` or more, with an overflow, and otherwise gives `t` bytes |
| TsCodec.DecodeChunkIsBytes | src/base62.ts:65-78 | an accepted group gives the `t`-byte big-endian form of its value |
| TsCodec.DecodeChunkIsChunkDecoder | src/base62.ts:62-82 | the concrete chunk decoder meets the loop's contract |
| TsCodec.GreedyStep | src/base62.ts:94-96 | the chosen width fits, maps to an aligned chunk of at most 3/4 of its length, and unless it is 43 leaves less than itself |
| TsCodec.ShortLeftoverFails | src/base62.ts:94-98 | a leftover of 1 to 5 characters has no width and decoding fails |
| TsCodec.DecodeLoopErrors | src/base62.ts:93-102 | the loop fails only for a missing width, a misordered group, or an overflow |
| TsCodec.DecodeLoopNoOrderError | src/base62.ts:95-96 | starting after a full-width group, or with less text than the previous width, the order check never fires: greedy widths strictly shrink once below 43 |
| TsCodec.DecodeLoopLength | src/base62.ts:91-103 | decoded buffers are whole 32-bit words and at most 3/4 as long as the text, so the `Uint8Array(s.length)` buffer always has room |
| TsCodec.DecodeLoopUncons | src/base62.ts:93-101 | a successful decoding is the first group's bytes followed by the rest's |
| TsCodec.DecodeLoopCons | src/base62.ts:93-101 | a group the loop picks, before text that decodes, decodes to its bytes followed by theirs |
| TsCodec.Decode | src/base62.ts:88-107 | the decoder fails with the alphanumeric error exactly on non-alphanumeric text, otherwise only with a missing width or an overflow; results are whole words at most 3/4 of the text |
| TsCodec.ChunkRoundTrip | src/base62.ts:35-43 | a chunk's group decodes back to the chunk |
| TsCodec.GroupRoundTrip | src/base62.ts:62-82 | a group of `intervals[t]` characters that decodes re-encodes to itself |
| TsCodec.EncodedWidthIsGreedy | src/base62.ts:94-96 | after the encoder's chunk, the decoder picks that chunk's width again and the order check passes |
| TsCodec.DecodedChunkIsEncoderChunk | src/base62.ts:52 | after the decoder's group, the encoder picks that group's chunk size again |
| TsCodec.ChunkCodecRoundTrips | src/base62.ts:35-82 | the concrete chunk codec is a bijection between chunks and the groups that decode |
| TsCodec.EncodedChunk | src/base62.ts:35-43 | under the chunk contracts, one chunk's group has its width and decodes back |
| TsCodec.EncodeStepFacts | src/base62.ts:51-57 | the first chunk's group is the width the decoder picks in front of the rest, and it decodes back to the chunk |
| TsCodec.DecodeEncodeLoop | src/base62.ts:93-102 | decoding what the encoder's loop wrote recovers the buffer |
| TsCodec.EncodeDecodeLoop | src/base62.ts:51-57 | re-encoding what the decoder's loop accepted gives the text back |
| TsCodec.RoundTrip | src/base62.ts:48-107 | every aligned buffer encodes, and decoding the encoding returns the buffer |
| TsCodec.EncodeDecode | src/base62.ts:88-107 | every text the decoder accepts is the encoding of its result, so the codec is a bijection |
| TsCodec.LexOrder | src/base62.ts:22-23 | symbols compare as their digits do |
| TsCodec.SpellKeepsOrder | src/base62.ts:22-23 | spelling digit sequences in the lexicographic alphabet keeps their order |
| TsCodec.ChunkKeepsOrder | src/base62.ts:35-43 | chunks of one size sort as their groups sort under JavaScript's string `<` |
| TsCodec.BytesKeepOrder | src/base62.ts:38 | big-endian buffers of one length sort as their values do |
| TsCodec.ChunkInjective | src/base62.ts:35-43 | two chunks of one size share a group exactly when they are equal |
| TsCodec.OrderStepFacts | src/base62.ts:51-57 | an aligned buffer's encoding is its first chunk's group followed by the rest's encoding |
| TsCodec.EncodesAligned | src/base62.ts:51-58 | every aligned buffer encodes |
| TsCodec.EncodeLoopKeepsOrder | src/base62.ts:51-58 | the encoder's loop keeps the order of aligned buffers of one length |
| TsCodec.EncodeKeepsOrder | src/base62.ts:45-59 | aligned buffers of one length compare as their encodings do under JavaScript's string `<`, both ways |
| RustCodec.EncodeChunk | rust/src/base62.rs:49-65 | a chunk's group has exactly `M[c]` characters, all from the alphabet |
| RustCodec.EncodeChunkIsGroup | rust/src/base62.rs:54-63 | no digit is dropped: the group is exactly `M[c]` base-62 digits of the value, padded with 'A' |
| RustCodec.EncodedLengthStep | rust/src/base62.rs:70-77 | the first chunk's width plus the rest's encoded length is the encoded length |
| RustCodec.Encode | rust/src/base62.rs:67-80 | the encoding uses only alphabet symbols |
| RustCodec.EncodeLength | rust/src/base62.rs:67-80 | the encoder writes 43 characters per full 32-byte chunk plus `M(r)` for a remainder of `r` bytes |
| RustCodec.EncodeUncons | rust/src/base62.rs:70-77 | the encoding is the group of the first `min(len, 32)` bytes followed by the encoding of the rest |
| RustCodec.EncodeOfFullChunk | rust/src/base62.rs:71-76 | a full 32-byte chunk in front encodes to its group followed by the rest's encoding |
| RustCodec.BigEndianBytes | rust/src/base62.rs:100 | `to_bytes_be` always gives at least one byte |
| RustCodec.PlacedBytes | rust/src/base62.rs:99-104 | a value that fits `t` bytes has at most `t` significant bytes, and copying them to the right end of `t` zeros gives its `t`-byte form |
| RustCodec.DecodeChunk | rust/src/base62.rs:83-107 | a group fails exactly when a character is outside the alphabet or the value exceeds `2^(8t) - 1`, with the matching error; otherwise it gives `t` bytes |
| RustCodec.DecodeChunkIsBytes | rust/src/base62.rs:93-106 | an accepted group gives the `t`-byte big-endian form of its value, zero-filled on the left |
| Groups.ByteRange | rust/src/base62.rs:94-95 | `2^(8t)` is `256^t`, so the decoders' overflow bound is the largest `t`-byte value |
| RustCodec.DecodeChunkIsChunkDecoder | rust/src/base62.rs:83-107 | the concrete chunk decoder meets the loop's contract |
| RustCodec.Decode | rust/src/base62.rs:109-130 | the decoder fails with the alphanumeric error exactly on non-alphanumeric text, and otherwise only with an unknown group length or an overflow |
| RustCodec.DecodeGroupsErrors | rust/src/base62.rs:116-127 | over the alphabet the group loop fails only with an unknown group length or an overflow |
| RustCodec.DecodeGroupsAgree | rust/src/base62.rs:116-127 | chunk decoders that agree on every group give the same loop |
| RustCodec.BadTailStep | rust/src/base62.rs:117-122 | the first group's length has a chunk size unless the text is a short bad tail, and bad tails pass on to the rest |
| RustCodec.DecodedLengthStep | rust/src/base62.rs:116-127 | the first group's bytes plus the rest's make up the decoded length |
| RustCodec.DecodeGroupsBadTail | rust/src/base62.rs:117-122 | every text whose last group has 1 or a multiple of 4 characters is refused |
| RustCodec.DecodeGroupsLengthError | rust/src/base62.rs:118-122 | an unknown-group-length error means the text's last group has a bad length |
| RustCodec.DecodeGroupsLength | rust/src/base62.rs:116-129 | a success has 32 bytes per full group plus `INV_M[r]` for the remainder |
| RustCodec.DecodeShape | rust/src/base62.rs:109-130 | every text ending in a bad-length group is refused, an unknown-length error happens only for such text, and a success has 32 bytes per full group plus `INV_M[r]` |
| RustCodec.DecodeGroupsUncons | rust/src/base62.rs:116-127 | a successful decoding is the first group's bytes followed by the rest's |
| RustCodec.ChunkRoundTrip | rust/src/base62.rs:49-65 | a chunk's group has a listed length and decodes back to the chunk |
| RustCodec.GroupRoundTrip | rust/src/base62.rs:83-107 | a group of `M(t)` characters that decodes re-encodes to itself |
| RustCodec.ChunkCodecRoundTrips | rust/src/base62.rs:49-107 | the concrete chunk codec is a bijection between chunks and the groups that decode |
| RustCodec.EncodeStepFacts | rust/src/base62.rs:70-77 | the encoder's first chunk is the decoder's first group |
| RustCodec.EncodedChunk | rust/src/base62.rs:76 | under the round-trip contract, one chunk's group decodes back |
| RustCodec.DecodeGroupsEncode | rust/src/base62.rs:116-127 | the group loop recovers every buffer from its encoding |
| RustCodec.RoundTrip | rust/src/base62.rs:67-130 | `decode(encode(B)) == Ok(B)` for every buffer |
| RustCodec.DecodeStepFacts | rust/src/base62.rs:116-127 | the decoder's first group is the encoder's first chunk |
| RustCodec.EncodeDecodeGroups | rust/src/base62.rs:70-77 | re-encoding what the group loop accepted gives the text back |
| RustCodec.EncodeDecode | rust/src/base62.rs:109-130 | the decoder is exact: text it accepts is the encoding of its result |
| RustCodec.EncodedLengthIsGood | rust/src/base62.rs:67-80 | an encoder's output length is never a bad tail, and decodes to the buffer's length |
| RustCodec.EmptyCases | rust/src/main.rs:30 | the empty buffer encodes to "" and "" decodes to the empty buffer |
| RustCodec.EncodeOneChunk | rust/src/base62.rs:70-77 | a buffer of at most 32 bytes encodes to its one chunk's group |
| RustCodec.OneChunkVector | rust/src/main.rs:25-26 | a one-chunk buffer and a group of its width with the same value encode to and decode from each other |
| RustCodec.ReadSpelled | rust/src/main.rs:25-26 | the digits of a string spelled from known digits of the alphabet |
| RustCodec.ValueOfDGjU5e | rust/src/main.rs:25 | "DGjU5e" has the value 2845478436 |
| RustCodec.ValueOfFourBytes | rust/src/main.rs:25 | the bytes 169, 154, 142, 36 have the value 2845478436 |
| RustCodec.ValueOfQFC | rust/src/main.rs:26 | "QFC" has the value 61816 |
| RustCodec.ValueOfTwoBytes | rust/src/main.rs:26 | the bytes 241, 120 have the value 61816 |
| RustCodec.VectorFourBytes | rust/src/main.rs:54 | `[169, 154, 142, 36]` encodes to "DGjU5e" and decodes back |
| RustCodec.VectorTwoBytes | rust/src/main.rs:55 | `[241, 120]` encodes to "QFC" and decodes back |
| GoCodec.ChunkValue | go/base62.go:43-46 | the shift-or loop computes the chunk's big-endian value |
| GoCodec.MinimalDigitsSnoc | go/base62.go:49-52 | dividing off the lowest digit peels the last significant digit |
| GoCodec.PrependDigit | go/base62.go:50-51 | prepending the lowest digit's symbol and dividing by 62 keeps the spelled value in front of the output |
| GoCodec.PadCountNonNegative | go/base62.go:53 | the pad count `M[c] - len(result)` is never negative |
| GoCodec.EncodeChunk | go/base62.go:39-54 | the chunk's group is exactly `M[c]` base-62 digits of its value, padded with 'A' |
| GoCodec.EncodeStep | go/base62.go:60-66 | the encoding at `i` is the group of the next chunk followed by the encoding after it |
| GoCodec.Encode | go/base62.go:57-69 | the Go encoder writes exactly what the Rust encoder writes |
| GoCodec.ChunkSpec | go/base62.go:71-88 | a group fails exactly when its value is `2^(8t)` or more, and otherwise gives `t` bytes holding its value |
| GoCodec.ReadSnoc | go/base62.go:75-78 | reading one more symbol adds its digit |
| GoCodec.ReadValue | go/base62.go:75-78 | the `n = n*62 + index` loop computes the group's value |
| GoCodec.WriteLowByte | go/base62.go:84-85 | writing the low byte at `k - 1` and shifting moves one byte from the value into the buffer |
| GoCodec.WriteBytes | go/base62.go:83-86 | the backwards byte loop writes the `t` low-order bytes of the value, big-endian |
| GoCodec.DecodeChunk | go/base62.go:71-88 | the chunk decoder method computes the chunk specification |
| GoCodec.LookupOrZero | go/base62.go:102 | `invM[c]` is either a chunk size from 1 to 32 whose table entry is `c`, or 0, and it is 0 exactly when no chunk size has entry `c` |
| GoCodec.DecodeSpec | go/base62.go:91-94 | the alphanumeric error comes exactly from non-alphanumeric text |
| GoCodec.DecodeGroupsErrors | go/base62.go:102-105 | over the alphabet the group loop fails only with an overflow |
| GoCodec.Copy | go/base62.go:106 | `copy` never changes the destination's length |
| GoCodec.CopyContents | go/base62.go:106 | `copy` puts the source over the destination from `at` on, as far as it reaches, and leaves the rest alone |
| GoCodec.CopyPrefix | go/base62.go:106 | copying a chunk that fits puts it right after the first `at` bytes |
| GoCodec.CopyAt | go/base62.go:106 | copying a chunk that fits places it after the first `at` bytes and keeps the bytes after it |
| GoCodec.GroupDensity | go/base62.go:95 | a group of `c` characters decodes to at most `6c/8` bytes |
| GoCodec.DecodeStep | go/base62.go:97-109 | the outcome at `i` is the next group's failure, or its bytes in front of the outcome after it |
| GoCodec.DecodeGroupAt | go/base62.go:98-102 | one pass takes `min(len(s) - i, maxChunk)` characters, and its bytes fit in `6/8` of them |
| GoCodec.DecodeLoop | go/base62.go:95-110 | the preallocated-buffer loop computes the group-loop specification and never runs out of room |
| GoCodec.Decode | go/base62.go:91-111 | the Go decoder method computes the as-written specification |
| GoCodec.ChunkSpecIsRust | go/base62.go:79-86 | for chunk sizes of at least one byte the Go and Rust chunk decoders agree |
| GoCodec.DecodeGroupsIsRust | go/base62.go:97-109 | unless the last group has a bad length, the Go loop is the Rust loop |
| GoCodec.RustLoopWithGoChunks | go/base62.go:71-88 | the Rust loop gives the same result with Go's chunk decoder |
| GoCodec.DecodeSpecIsRust | go/base62.go:91-111 | unless the last group has a bad length, the Go decoder decodes exactly as the Rust one |
| GoCodec.RoundTrip | go/base62.go:57-111 | decoding an encoding recovers the buffer |
| GoCodec.DecodedFits | go/base62.go:95-110 | decoded output never exceeds `len(s)*6/8` bytes |
| GoCodec.LoneZeroAccepted | go/base62.go:102 | "A" decodes to the empty buffer, which Rust refuses and which does not encode to "A" |
| GoCodec.UnlistedLength | go/base62.go:79-81 | a group of unlisted length is accepted, as no bytes, exactly when its value is 0; otherwise it is an overflow |
| GoCodec.DecodeChecked | go/base62.go:91-111 | in the corrected decoder, the alphanumeric error comes exactly from non-alphanumeric text |
| GoCodec.DecodeCheckedIsRust | go/base62.go:97-109 | the corrected decoder is the Rust decoder |
| GoCodec.DecodeCheckedExact | go/base62.go:91-111 | the corrected decoder inverts the encoder and accepts only encodings |

## Left out

- The floating-point construction of the size table: `log2`/`ceil` at rust/src/base62.rs:32 and go/base62.go:32, and `Math.log2` at src/base62.ts:52. Each is replaced by its exact integer meaning, the least width and the exact `floor(log2 L)`. Rounding of `f64` is not modelled.
- Logging and the try/catch rethrow wrappers (src/base62.ts:64, 79-81, 92, 104-106). An exception is a `Failure`.
- Error messages. Each distinct error becomes one `Error` kind.
- `lazy_static`, `init()`, `HashMap` and `Map` as data structures. The tables are maps or functions.
- The internals of `num_bigint`, `math/big` and the hex-string `BigInt` (src/base62.ts:38). Big integers are `nat`.
- Go's `n.Int64() & 0xFF` is `n % 256`. For `n` of 64 bits or more, `Int64` is the low 64 bits, so the low byte is the same.
- `BigInt.asUintN(32, n)` (src/base62.ts:74) is one base-`2^32` digit, written as four bytes.
- ArrayBuffer, `Uint8Array`, `DataView` and Go slices are sequences. The TypeScript `result.set` (src/base62.ts:99) is not modelled as a bounded copy. Its bound is `TsCodec.DecodeLoopLength`.
- The undefined key after `pop()` on an empty filter (src/base62.ts:94) is `Failure(NoGroupWidth)`. In the source `s.slice(i, NaN)` is "" and `inverseIntervals.get(undefined)` is `undefined`, so `t * 8` is `NaN` and `BigInt(NaN)` throws a RangeError at src/base62.ts:69.
- The `UnknownDigit` branch of the Rust chunk decoder is modelled, but it is unreachable after the alphanumeric check. The Go chunk method requires text over the alphabet, which its only caller guarantees.
- RustCodec.Encode: its contract states only that the output is over the alphabet. The exact output length is the separate lemma `RustCodec.EncodeLength`.
- rust/src/main.rs is not part of this model. Its CLI calls pass two arguments to one-argument functions. Of its test vectors, only `[169,154,142,36]`/"DGjU5e", `[241,120]`/"QFC" and the empty case are proved.
- The commented-out alphabets and the interop-suffix comment (rust/src/base62.rs:15-17, 22-23; go/base62.go:16-18). Only the two active alphabets are defined.
- Unicode. A Dafny string is a sequence of Unicode scalar values. JavaScript's `<` compares UTF-16 code units, and the two orders agree on text without surrogate pairs, which includes the ASCII text the encoder writes. `is_ascii_alphanumeric`, the regular expressions, and Go's byte indexing `s[i]` agree on ASCII text. The alphanumeric check runs before any indexing.

## Findings

| source | as written | input that shows it | evidently intended | confidence | as-written member | corrected member |
|---|---|---|---|---|---|---|
| go/base62.go:102 | a group length missing from `invM` reads as chunk size 0; a group whose value is 0 then decodes to no bytes without error | "A": its only group has length 1, which is no value of `M`; the value 0 fits in 0 bytes, so the result is the empty buffer; the encoder maps the empty buffer to "", and the Rust decoder refuses "A" | refuse a group length with no chunk size, as rust/src/base62.rs:118-122 does | not executed | GoCodec.LoneZeroAccepted | GoCodec.DecodeCheckedExact |
