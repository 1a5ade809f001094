/**
 * The codec of varints.c over caller-owned memory: byte buffers are arrays,
 * and the C out-pointers are references to one-field cells, `null` where C
 * allows NULL. The static helpers `_u64_to_varint` and `_varint_to_u64` keep
 * their loops; the four public functions check their pointers and delegate.
 * Every method is proved against the reference definitions of VarintFormat.
 */
module Varints {
  import opened Bits
  import opened VarintFormat

  /** A caller's `int` reached through an `int *`. */
  class IntCell {
    var value: int

    constructor (v: int)
      ensures value == v
    {
      value := v;
    }
  }

  /** A caller's `uint64_t` reached through a `uint64_t *`. */
  class U64Cell {
    var value: uint64

    constructor (v: uint64)
      ensures value == v
    {
      value := v;
    }
  }

  /** A caller's `int64_t` reached through an `int64_t *`. */
  class I64Cell {
    var value: int64

    constructor (v: int64)
      ensures value == v
    {
      value := v;
    }
  }

  // ---------------------------------------------------------------------------
  // The C operations of one loop iteration, in terms of the format

  /** An encoder iteration on a value above 0x7F writes the first byte of its
      encoding, and the shifted value encodes the rest. */
  lemma EncodeStep(rest: uint64)
    requires rest > BYTE_DATA_MASK
    ensures BitOr(BitAnd(rest, BYTE_DATA_MASK), BYTE_CONT_BIT) % U8_MODULUS == Encoding(rest)[0]
    ensures Shr(rest, 7) == rest / 0x80
    ensures Encoding(rest) == [Encoding(rest)[0]] + Encoding(Shr(rest, 7))
  {
    ContinuedGroup(rest);
    ShiftSeven(rest);
    assert Encoding(rest) == [rest % 0x80 + BYTE_CONT_BIT] + Encoding(rest / 0x80);
  }

  /** `(x & BYTE_DATA_MASK) | BYTE_CONT_BIT`: the low group with the continuation bit set. */
  lemma ContinuedGroup(x: nat)
    ensures BitOr(BitAnd(x, BYTE_DATA_MASK), BYTE_CONT_BIT) == x % 0x80 + BYTE_CONT_BIT
  {
    assert Pow2(7) == 0x80;
    AndLowBits(x, 7);
    OrDisjoint(x % 0x80, 1, 7);
  }

  /** `x >> 7` drops the low group. */
  lemma ShiftSeven(x: nat)
    ensures Shr(x, 7) == x / 0x80
  {
    assert Pow2(7) == 0x80;
  }

  /** A decoder iteration on byte i ORs in the group of that byte, and its
      continuation-bit test says whether the byte ends the varint. */
  lemma DecodeStep(bs: seq<uint8>, i: nat, acc: uint64)
    requires i < MAX_ENCODED_LEN && i < |bs|
    requires acc == Value(bs[..i])
    ensures 7 * i < 64
    ensures BitOr(acc, Shl64(BitAnd(bs[i], BYTE_DATA_MASK), 7 * i)) == Value(bs[..i + 1])
    ensures BitAnd(bs[i], BYTE_CONT_BIT) == 0 <==> IsLast(bs[i])
  {
    var b := bs[i];
    var g := b % 0x80;
    ByteMasks(b);
    GroupShift(g, i);
    ValueBound(bs[..i]);
    OrDisjoint(acc, g, 7 * i);
    assert bs[..i + 1] == bs[..i] + [b];
    ValueAppend(bs[..i], b);
  }

  /** The data mask keeps the group; the continuation-bit mask tests bit 7. */
  lemma ByteMasks(b: uint8)
    ensures BitAnd(b, BYTE_DATA_MASK) == b % 0x80
    ensures BitAnd(b, BYTE_CONT_BIT) == 0 <==> IsLast(b)
  {
    assert Pow2(7) == 0x80;
    AndLowBits(b, 7);
    AndOneBit(b, 7);
  }

  /** A group shifted by at most 56 bits loses nothing to the 64-bit width. */
  lemma GroupShift(g: nat, i: nat)
    requires g < 0x80 && i < MAX_ENCODED_LEN
    ensures 7 * i < 64 && Shl64(g, 7 * i) == g * Pow2(7 * i)
  {
    var p := Pow2(7 * i);
    Pow2Values();
    Pow2Monotone(7 * i, 56);
    MulLe(g, 0x7F, p, 0x0100_0000_0000_0000);
    assert g * p < U64_MODULUS;
  }

  // ---------------------------------------------------------------------------
  // Static helpers

  /** `_u64_to_varint`: writes the encoding of input at the start of output and
      stores its length through bytesGenerated unless that is NULL. The C code
      walks a pointer through output; here byteCount indexes it. */
  method U64ToVarint(input: uint64, output: array<uint8>, bytesGenerated: IntCell?)
    requires output.Length >= MAX_ENCODED_LEN
    requires input >= 0x8000_0000_0000_0000 ==> output.Length > MAX_ENCODED_LEN
    modifies output, bytesGenerated
    ensures |Encoding(input)| <= output.Length && output[..|Encoding(input)|] == Encoding(input)
    ensures output[|Encoding(input)|..] == old(output[|Encoding(input)|..])
    ensures bytesGenerated != null ==> bytesGenerated.value == |Encoding(input)|
  {
    ghost var enc := Encoding(input);
    EncodingBound(input);
    var rest: uint64 := input;
    var byteCount := 0;
    while rest > BYTE_DATA_MASK
      invariant byteCount + |Encoding(rest)| == |enc| <= output.Length
      invariant output[..byteCount] == enc[..byteCount]
      invariant enc[byteCount..] == Encoding(rest)
      invariant forall j | byteCount <= j < output.Length :: output[j] == old(output[j])
      modifies output
      decreases rest
    {
      EncodeStep(rest);
      output[byteCount] := BitOr(BitAnd(rest, BYTE_DATA_MASK), BYTE_CONT_BIT) % U8_MODULUS;
      assert enc[byteCount + 1..] == enc[byteCount..][1..];
      byteCount := byteCount + 1;
      rest := Shr(rest, 7);
    }
    output[byteCount] := rest % U8_MODULUS;
    byteCount := byteCount + 1;
    assert output[..byteCount] == enc;
    if bytesGenerated != null {
      bytesGenerated.value := byteCount;
    }
  }

  /** `_varint_to_u64`: ORs the 7-bit groups into *output at bit offsets 0, 7,
      ..., 56 up to the first byte whose continuation bit is clear. It returns 0
      and stores the byte count unless bytesConsumed is NULL, or returns 1 when
      none of the first VARINTS_MAX_ENCODED_LEN bytes ends the varint; then
      *output keeps the partial value of those bytes, which the header does not
      promise, and *bytes_consumed is not written. */
  method VarintToU64(input: array<uint8>, output: U64Cell, bytesConsumed: IntCell?) returns (ret: int)
    requires Readable(input[..])
    modifies output, bytesConsumed
    ensures ret == (if Decode(input[..]).Decoded? then 0 else 1)
    ensures Decode(input[..]).Decoded? ==>
      output.value == Decode(input[..]).value &&
      (bytesConsumed != null ==> bytesConsumed.value == Decode(input[..]).consumed)
    ensures Decode(input[..]).Incomplete? ==>
      output.value == Value(input[..MAX_ENCODED_LEN]) &&
      (bytesConsumed == null || unchanged(bytesConsumed))
  {
    ghost var bs := input[..];
    output.value := 0;
    var bitPos: uint64 := 0;
    var i := 0;
    while i < MAX_ENCODED_LEN
      invariant 0 <= i <= MAX_ENCODED_LEN
      invariant FirstLast(bs, i, MAX_ENCODED_LEN) == FirstLast(bs, 0, MAX_ENCODED_LEN)
      invariant i <= |bs|
      invariant bitPos == 7 * i
      invariant output.value == Value(bs[..i])
      modifies output
    {
      DecodeStep(bs, i, output.value);
      PrefixValueBelow(bs, i + 1);
      output.value := BitOr(output.value, Shl64(BitAnd(input[i], BYTE_DATA_MASK), bitPos));
      bitPos := bitPos + 7;
      if BitAnd(input[i], BYTE_CONT_BIT) == 0 {
        break;
      }
      i := i + 1;
    }
    if i >= MAX_ENCODED_LEN {
      return 1;
    } else if bytesConsumed != null {
      bytesConsumed.value := i + 1;
    }
    return 0;
  }

  // ---------------------------------------------------------------------------
  // Public functions

  /** `varint_encode_u64`: -1 when output is NULL; otherwise 0 after writing the
      encoding of input. Output needs the documented VARINTS_MAX_ENCODED_LEN
      bytes, and one more for an input of 2^63 or more, which encodes in 10. */
  method EncodeU64(input: uint64, output: array?<uint8>, bytesGenerated: IntCell?) returns (ret: int)
    requires output != null ==> output.Length >= MAX_ENCODED_LEN
    requires output != null && input >= 0x8000_0000_0000_0000 ==> output.Length > MAX_ENCODED_LEN
    modifies output, bytesGenerated
    ensures ret == (if output == null then -1 else 0)
    ensures output == null ==> bytesGenerated == null || unchanged(bytesGenerated)
    ensures output != null ==>
      |Encoding(input)| <= output.Length && output[..|Encoding(input)|] == Encoding(input) &&
      output[|Encoding(input)|..] == old(output[|Encoding(input)|..]) &&
      (bytesGenerated != null ==> bytesGenerated.value == |Encoding(input)|)
  {
    if output == null {
      return -1;
    }
    U64ToVarint(input, output, bytesGenerated);
    return 0;
  }

  /** `varint_decode_u64`: -1 when input or output is NULL, without touching
      anything; otherwise the result of `_varint_to_u64`. */
  method DecodeU64(input: array?<uint8>, output: U64Cell?, bytesConsumed: IntCell?) returns (ret: int)
    requires input != null && output != null ==> Readable(input[..])
    modifies output, bytesConsumed
    ensures input == null || output == null ==>
      ret == -1 && (output == null || unchanged(output)) &&
      (bytesConsumed == null || unchanged(bytesConsumed))
    ensures input != null && output != null ==>
      ret == (if Decode(input[..]).Decoded? then 0 else 1) &&
      (Decode(input[..]).Decoded? ==>
        output.value == Decode(input[..]).value &&
        (bytesConsumed != null ==> bytesConsumed.value == Decode(input[..]).consumed)) &&
      (Decode(input[..]).Incomplete? ==>
        output.value == Value(input[..MAX_ENCODED_LEN]) &&
        (bytesConsumed == null || unchanged(bytesConsumed)))
  {
    if input == null || output == null {
      return -1;
    }
    ret := VarintToU64(input, output, bytesConsumed);
  }

  /** `varint_encode_i64`: the unsigned encoder applied to the zig-zag image of
      input. Inputs outside -2^62 <= input < 2^62 encode in 10 bytes. */
  method EncodeI64(input: int64, output: array?<uint8>, bytesGenerated: IntCell?) returns (ret: int)
    requires output != null ==> output.Length >= MAX_ENCODED_LEN
    requires output != null && !(-0x4000_0000_0000_0000 <= input < 0x4000_0000_0000_0000) ==>
      output.Length > MAX_ENCODED_LEN
    modifies output, bytesGenerated
    ensures ret == (if output == null then -1 else 0)
    ensures output == null ==> bytesGenerated == null || unchanged(bytesGenerated)
    ensures output != null ==>
      var e := Encoding(ZigZag(input));
      |e| <= output.Length && output[..|e|] == e &&
      output[|e|..] == old(output[|e|..]) &&
      (bytesGenerated != null ==> bytesGenerated.value == |e|)
  {
    if output == null {
      return -1;
    }
    var uintin := ZigZag(input);
    ZigZagBelow(input);
    U64ToVarint(uintin, output, bytesGenerated);
    return 0;
  }

  /** `varint_decode_i64`: -1 when input or output is NULL; otherwise decodes
      into a local uint64_t, returns a nonzero result unchanged without writing
      *output, and on success stores the inverse zig-zag image. */
  method DecodeI64(input: array?<uint8>, output: I64Cell?, bytesConsumed: IntCell?) returns (ret: int)
    requires input != null && output != null ==> Readable(input[..])
    modifies output, bytesConsumed
    ensures input == null || output == null ==>
      ret == -1 && (output == null || unchanged(output)) &&
      (bytesConsumed == null || unchanged(bytesConsumed))
    ensures input != null && output != null ==>
      ret == (if Decode(input[..]).Decoded? then 0 else 1) &&
      (Decode(input[..]).Decoded? ==>
        output.value == UnZigZag(Decode(input[..]).value) &&
        (bytesConsumed != null ==> bytesConsumed.value == Decode(input[..]).consumed)) &&
      (Decode(input[..]).Incomplete? ==>
        unchanged(output) && (bytesConsumed == null || unchanged(bytesConsumed)))
  {
    if input == null || output == null {
      return -1;
    }
    var uintout := new U64Cell(0);
    ret := VarintToU64(input, uintout, bytesConsumed);
    if ret != 0 {
      return ret;
    }
    output.value := UnZigZag(uintout.value);
    return 0;
  }

  // ---------------------------------------------------------------------------
  // Round trips through the public functions

  /** Encoding a value below 2^63 into a VARINTS_MAX_ENCODED_LEN buffer and
      decoding that buffer gives back the value; both calls succeed and report
      the same byte count. */
  method RoundTripU64(v: uint64) returns (encodeRet: int, decodeRet: int, decoded: uint64, generated: int, consumed: int)
    requires v < 0x8000_0000_0000_0000
    ensures encodeRet == 0 && decodeRet == 0
    ensures decoded == v
    ensures generated == consumed == |Encoding(v)|
  {
    var buf := new uint8[MAX_ENCODED_LEN];
    var size := new IntCell(0);
    encodeRet := EncodeU64(v, buf, size);
    EncodingBound(v);
    RoundTrip(v, buf[|Encoding(v)|..]);
    assert buf[..] == Encoding(v) + buf[|Encoding(v)|..];
    var out := new U64Cell(0);
    var used := new IntCell(0);
    decodeRet := DecodeU64(buf, out, used);
    decoded, generated, consumed := out.value, size.value, used.value;
  }

  /** The same for a signed value with -2^62 <= v < 2^62. */
  method RoundTripI64(v: int64) returns (encodeRet: int, decodeRet: int, decoded: int64, generated: int, consumed: int)
    requires -0x4000_0000_0000_0000 <= v < 0x4000_0000_0000_0000
    ensures encodeRet == 0 && decodeRet == 0
    ensures decoded == v
    ensures generated == consumed == |Encoding(ZigZag(v))|
  {
    var buf := new uint8[MAX_ENCODED_LEN];
    var size := new IntCell(0);
    encodeRet := EncodeI64(v, buf, size);
    var e := Encoding(ZigZag(v));
    ZigZagBelow(v);
    EncodingBound(ZigZag(v));
    SignedRoundTrip(v, buf[|e|..]);
    assert buf[..] == e + buf[|e|..];
    var out := new I64Cell(0);
    var used := new IntCell(0);
    decodeRet := DecodeI64(buf, out, used);
    decoded, generated, consumed := out.value, size.value, used.value;
  }
}
