# varints — a verified model of a base-128 varint codec

The repository is one C component. It encodes `uint64_t` values as unsigned
LEB128 varints (DWARF Version 5, section 7.6, "Variable Length Data"): 7-bit
groups, least significant first, with bit 7 set on every byte but the last. It
decodes them back. Signed `int64_t` values go through the Protocol Buffers
"sint64" zig-zag map first. The four public functions are
`varint_encode_u64`, `varint_decode_u64`, `varint_encode_i64` and
`varint_decode_i64`. They return 0 on success and -1 for a NULL pointer. The
decoders return 1 when none of the first `VARINTS_MAX_ENCODED_LEN` (9) bytes
ends the varint.

The model has three modules:

- `Bits` (`bits.dfy`) holds the C integer types `uint8`, `uint64` and `int64`
  as integer subset types. It defines the C operators the codec uses: `&`,
  `|` and `^` as bit-by-bit functions on naturals (`BitAnd`, `BitOr`,
  `BitXor`), `<<` on `uint64_t` with loss of the high bits (`Shl64`), `>>`
  (`Shr`, `Asr`), and the signed/unsigned conversions (`ToU64`, `ToI64`).
  Lemmas turn each way the codec uses these operators into arithmetic.
- `VarintFormat` (`varint_format.dfy`) gives reference definitions that do
  not follow the C loops. `Encoding(v)` is the LEB128 byte sequence of `v`.
  `Value(bs)` is the number a sequence of groups holds. `Decode(bs)` is what
  the C decoder computes: the value up to the first end byte among the first
  9 bytes, or `Incomplete`. `ZigZag` and `UnZigZag` are the two zig-zag
  expressions of `varints.c`. The properties of the format are proved here.
- `Varints` (`varints.dfy`) models `varints.c` itself. Buffers are arrays.
  Out-pointers are references to one-field cells (`IntCell`, `U64Cell`,
  `I64Cell`), and `null` stands for NULL. The two static helpers keep their
  loops and are proved against `Encoding` and `Decode`. The four public
  functions check their pointers and delegate.

Where the code and the header disagree, the model follows the code:

- The encoder loops while the value exceeds 0x7F. So every value of 2^63 or
  more takes 10 bytes, one more than `VARINTS_MAX_ENCODED_LEN`, and the 9-byte
  decoder gives up on those encodings with 1. This includes the largest
  `uint64_t`.
- A signed value therefore round-trips only when -2^62 <= v < 2^62. This
  excludes the smallest `int64_t`.
- The decoder accepts non-minimal encodings. For example `[0x80, 0x00]`
  decodes to 0 in 2 bytes. So re-encoding a decoded value need not give back
  the input bytes.
- On the failure path the decoder has already ORed nine groups into
  `*output`. The header does not promise this, but the code does it, and the
  model states it.

## Model

| member | source | states |
|---|---|---|
| `Bits.AndLowBits` | varints.c:49 | masking with 2^k - 1 (as with `BYTE_DATA_MASK`) keeps the value modulo 2^k |
| `Bits.AndOneBit` | varints.c:52 | `x & 2^k` is zero exactly when bit k of x is clear (the `BYTE_CONT_BIT` test) |
| `Bits.OrDisjoint` | varints.c:49 | OR-ing a group shifted above the k low bits into a value below 2^k adds it |
| `Bits.XorAllOnes` | varints.c:136 | XOR with 64 one-bits (`^ -1` after conversion) complements a 64-bit value |
| `Bits.AsrSign` | varints.c:112 | `input >> 63` on an `int64_t` is -1 for a negative input and 0 otherwise |
| `VarintFormat.EncodingLayout` | varints.c:19-28 | every encoded byte but the last has bit 7 set, the last has it clear, and the last is non-zero when there are several bytes |
| `VarintFormat.EncodingValue` | varints.c:19-28 | the 7-bit groups of the encoding, least significant first, add up to the input |
| `VarintFormat.EncodingLength` | varints.c:18-29 | the byte count is the number of 7-bit groups of the input, at least 1: v < 2^(7n), and v >= 2^(7(n-1)) when n > 1 |
| `VarintFormat.EncodingBound` | varints.c:19-25 | a `uint64_t` encodes in at most 10 bytes, and in at most 9 exactly when it is below 2^63 |
| `VarintFormat.EncodingUnique` | varints.c:19-28 | any byte sequence with the encoder's layout is the encoding of its value, so the encoding is the only minimal one |
| `VarintFormat.EncodingExamples` | varints.c:18-29 | 0, 127, 128 and 300 encode as [0x00], [0x7F], [0x80, 0x01] and [0xAC, 0x02] |
| `VarintFormat.EncodingOfMax` | varints.c:19-25 | 0xFFFFFFFFFFFFFFFF encodes as nine 0xFF bytes followed by 0x01 |
| `VarintFormat.FirstLast` | varints.c:47-57 | the index found is the first byte within the limit whose bit 7 is clear; none found means every byte looked at has bit 7 set |
| `VarintFormat.ValueBound` | varints.c:49-50 | n groups hold a value below 2^(7n) |
| `VarintFormat.ValueAppend` | varints.c:49-50 | one more group lands at bit offset 7 times the number of groups before it |
| `VarintFormat.PrefixValueBelow` | varints.c:47-50 | at most 9 groups, the largest at offset 56, give a value below 2^63 |
| `VarintFormat.DecodeSound` | varints.c:43-68 | a decoded result consumed 1 to 9 bytes up to and including the first end byte, and its value is below 2^63; an incomplete result on a readable buffer means all of the first 9 bytes have bit 7 set |
| `VarintFormat.FirstLastAt` | varints.c:47-57 | the decoder stops at an end byte that has no end byte before it |
| `VarintFormat.RoundTrip` | varints.c:14-69 | for v < 2^63, decoding the encoding followed by any bytes gives v and consumes exactly the encoded bytes |
| `VarintFormat.TooLongForDecoder` | varints.c:19-25 | for v >= 2^63 the encoding has 10 bytes and decoding it returns incomplete |
| `VarintFormat.DecodeAcceptsNonMinimal` | varints.c:47-57 | [0x80, 0x00] decodes to 0 in 2 bytes, although 0 encodes as [0x00] |
| `VarintFormat.ZigZagValue` | varints.c:112 | the zig-zag map sends v >= 0 to 2v and v < 0 to -2v - 1 |
| `VarintFormat.UnZigZagValue` | varints.c:136 | the inverse sends an even u to u/2 and an odd u to -(u/2) - 1 |
| `VarintFormat.ZigZagInverse` | varints.c:112-136 | the two maps are inverse bijections between `int64_t` and `uint64_t` |
| `VarintFormat.ZigZagExamples` | varints.c:112 | 0, -1, 1, -2 map to 0, 1, 2, 3 |
| `VarintFormat.ZigZagBelow` | varints.c:112 | the zig-zag image is below 2^63, so it fits in 9 bytes, exactly when -2^62 <= v < 2^62 |
| `VarintFormat.SignedRoundTrip` | varints.c:105-138 | for -2^62 <= v < 2^62 the encoding of the zig-zag image decodes back to it, and the inverse map restores v |
| `VarintFormat.DecodeCorrected` | varints.h:8 | a decoder that looks at up to 10 bytes and refuses values past 64 bits yields only `uint64_t` values from 1 to 10 bytes |
| `VarintFormat.CorrectedRoundTrip` | varints.h:8 | with that decoder every `uint64_t` round-trips in at most 10 bytes |
| `Varints.ContinuedGroup` | varints.c:21 | `(input & BYTE_DATA_MASK) \| BYTE_CONT_BIT` is the low group plus 0x80 |
| `Varints.ShiftSeven` | varints.c:24 | `input >>= 7u` drops the low group |
| `Varints.EncodeStep` | varints.c:19-25 | one encoder iteration writes the first byte of the encoding, and the shifted value encodes the rest |
| `Varints.ByteMasks` | varints.c:49-52 | the data mask keeps a byte's group and the continuation-bit test holds exactly for an end byte |
| `Varints.GroupShift` | varints.c:49 | a group shifted by at most 56 bits loses nothing to the 64-bit width |
| `Varints.DecodeStep` | varints.c:49-52 | one decoder iteration ORs byte i's group in at offset 7i, giving the value of bytes 0..i, and its test matches the end byte |
| `Varints.U64ToVarint` | varints.c:14-35 | writes exactly the encoding of the input at the start of the buffer, changes no other byte, and stores the byte count only through a non-NULL pointer |
| `Varints.VarintToU64` | varints.c:41-69 | returns 0 with the decoded value and, through a non-NULL pointer, the byte count; returns 1 when no end byte is among the first 9, leaving the count untouched |
| `Varints.EncodeU64` | varints.c:75-85 | -1 without writing anything when output is NULL; otherwise 0 and the encoding, with the count stored when that pointer is non-NULL |
| `Varints.DecodeU64` | varints.c:91-99 | -1 without writing anything when input or output is NULL; otherwise 0 with value and count, or 1 when no end byte is among the first 9 |
| `Varints.EncodeI64` | varints.c:105-116 | the same contract as the unsigned encoder, writing the encoding of the zig-zag image of the input |
| `Varints.DecodeI64` | varints.c:122-138 | the same return codes as the unsigned decoder; on success stores the inverse zig-zag image, on 1 leaves output untouched |
| `Varints.RoundTripU64` | varints.c:75-99 | for v < 2^63, encoding into a 9-byte buffer and decoding it both return 0, give back v, and report the same byte count |
| `Varints.RoundTripI64` | varints.c:105-138 | the same through the signed functions for -2^62 <= v < 2^62 |

## Findings

| source | as written | input that shows it | evidently intended | confidence | as-written member | corrected member |
|---|---|---|---|---|---|---|
| varints.c:19-25 | the encoder emits one byte per 7-bit group, so inputs of 2^63 or more take 10 bytes; this exceeds `VARINTS_MAX_ENCODED_LEN` (varints.h:8), overruns a buffer of the documented size, and makes the 9-byte decoder return 1 | 0xFFFFFFFFFFFFFFFF encodes as nine 0xFF bytes and 0x01; decoding them returns 1 | every `uint64_t` round-trips, with a maximum encoded length of 10 | high; not executed | `VarintFormat.TooLongForDecoder` | `VarintFormat.CorrectedRoundTrip` |

The methods of `Varints` model the code as written. The corrected decoder
exists only as the reference function `DecodeCorrected`, with its round trip
proved.

## Left out

- `main.c` is not part of this model. It is a demonstration that encodes,
  decodes and prints one hard-coded value.
- Undefined and implementation-defined C behaviour is modelled as the code
  evidently intends. Left-shifting a negative `int64_t` (varints.c:112) acts on
  the two's complement representation. Converting an out-of-range
  `uint64_t` to `int64_t` (varints.c:136) is two's complement reinterpretation.
- Pointer arithmetic (`output++`, varints.c:22) is an index into the array.
- Out-of-bounds memory access cannot be expressed. `Varints.U64ToVarint`,
  `Varints.EncodeU64` and `Varints.EncodeI64` require a tenth buffer byte for
  inputs whose encoding takes 10 bytes. The C code writes that byte past a
  buffer of the documented size (see Findings). `Varints.VarintToU64`,
  `Varints.DecodeU64` and `Varints.DecodeI64` require the buffer to hold
  every byte the decoder reads: an end byte, or 9 bytes.
- The out-pointers have distinct types here, so they cannot alias each other
  or the byte buffer. C allows, for example, `bytes_generated` to point into
  `output`.
- Thread safety and reentrancy are not modelled. The codec has no shared
  state.
