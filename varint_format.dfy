/**
 * The wire format the codec reads and writes, as reference definitions
 * independent of the C loops: unsigned LEB128 (DWARF Version 5, section 7.6,
 * "Variable Length Data") for uint64_t values, and the Protocol Buffers
 * "sint64" zig-zag map from int64_t to uint64_t in front of it.
 *
 * The decoder definition is the one the C code implements: it gives up after
 * VARINTS_MAX_ENCODED_LEN (9) bytes, although the encoder writes 10 bytes for
 * every value of 2^63 or more.
 */
module VarintFormat {
  import opened Bits

  /** VARINTS_MAX_ENCODED_LEN: the decoder looks at no more than this many bytes. */
  const MAX_ENCODED_LEN: nat := 9
  /** BYTE_DATA_MASK: the 7 data bits of a byte. */
  const BYTE_DATA_MASK: nat := 0x7F
  /** BYTE_CONT_BIT: set on every byte of a varint except the last. */
  const BYTE_CONT_BIT: nat := 0x80

  datatype Option<T> = None | Some(value: T)

  /** Outcome of decoding: the value and the number of bytes it took, or no end byte found. */
  datatype DecodeResult = Decoded(value: uint64, consumed: nat) | Incomplete | Overflow

  /** The byte ends a varint: its continuation bit is clear. */
  predicate IsLast(b: uint8)
  {
    b < BYTE_CONT_BIT
  }

  /** The number held by a sequence of 7-bit groups, least significant group first. */
  function Value(bs: seq<uint8>): nat
  {
    if bs == [] then 0 else bs[0] % 0x80 + 0x80 * Value(bs[1..])
  }

  /** The unsigned LEB128 encoding of v: no more groups than v needs, and at least one. */
  function Encoding(v: nat): (e: seq<uint8>)
    ensures |e| >= 1
  {
    if v < 0x80 then [v] else [v % 0x80 + BYTE_CONT_BIT] + Encoding(v / 0x80)
  }

  // ---------------------------------------------------------------------------
  // Properties of the encoding

  /** Every byte but the last carries the continuation bit; the last does not,
      and is not zero unless it is the only byte (no superfluous high group). */
  lemma {:induction false} EncodingLayout(v: nat)
    ensures var e := Encoding(v);
      (forall j | 0 <= j < |e| - 1 :: !IsLast(e[j])) &&
      IsLast(e[|e| - 1]) &&
      (|e| > 1 ==> e[|e| - 1] != 0)
  {
    if v >= 0x80 {
      EncodingLayout(v / 0x80);
      var e, t := Encoding(v), Encoding(v / 0x80);
      assert e == [v % 0x80 + BYTE_CONT_BIT] + t;
      assert forall j | 1 <= j < |e| :: e[j] == t[j - 1];
    }
  }

  /** The groups of the encoding add up to the encoded number. */
  lemma {:induction false} EncodingValue(v: nat)
    ensures Value(Encoding(v)) == v
  {
    if v >= 0x80 {
      EncodingValue(v / 0x80);
      assert Encoding(v)[1..] == Encoding(v / 0x80);
    }
  }

  /** The encoding has as many bytes as v has 7-bit groups: v needs all of them
      and no fewer would do. */
  lemma {:induction false} EncodingLength(v: nat)
    ensures v < Pow2(7 * |Encoding(v)|)
    ensures |Encoding(v)| > 1 ==> Pow2(7 * (|Encoding(v)| - 1)) <= v
  {
    Pow2Values();
    if v >= 0x80 {
      var w := v / 0x80;
      var n := |Encoding(w)|;
      EncodingLength(w);
      assert |Encoding(v)| == n + 1;
      Pow2Add(7, 7 * n);
      assert 7 * (n + 1) == 7 + 7 * n;
      assert Pow2(7 * (n + 1)) == 0x80 * Pow2(7 * n);
      if n > 1 {
        Pow2Add(7, 7 * (n - 1));
        assert 7 * n == 7 + 7 * (n - 1);
        assert Pow2(7 * n) == 0x80 * Pow2(7 * (n - 1));
      }
    }
  }

  /** A uint64_t value encodes in at most 10 bytes, and in at most
      VARINTS_MAX_ENCODED_LEN (9) bytes exactly when it is below 2^63. */
  lemma EncodingBound(v: uint64)
    ensures |Encoding(v)| <= MAX_ENCODED_LEN + 1
    ensures |Encoding(v)| <= MAX_ENCODED_LEN <==> v < 0x8000_0000_0000_0000
  {
    Pow2Values();
    EncodingLength(v);
    var n := |Encoding(v)|;
    if n <= MAX_ENCODED_LEN {
      Pow2Monotone(7 * n, 63);
    } else {
      Pow2Monotone(63, 7 * (n - 1));
      if n > MAX_ENCODED_LEN + 1 {
        Pow2Monotone(64, 7 * (n - 1));
      }
    }
  }

  /** A byte sequence laid out as an encoding is the encoding of its value:
      the minimal encoding of a number is the only one. */
  lemma {:induction false} EncodingUnique(bs: seq<uint8>)
    requires |bs| >= 1
    requires forall j | 0 <= j < |bs| - 1 :: !IsLast(bs[j])
    requires IsLast(bs[|bs| - 1])
    requires |bs| > 1 ==> bs[|bs| - 1] != 0
    ensures Encoding(Value(bs)) == bs
  {
    if |bs| > 1 {
      var t := bs[1..];
      assert forall j | 0 <= j < |t| - 1 :: t[j] == bs[j + 1];
      EncodingUnique(t);
      var v := Value(bs);
      assert v == bs[0] % 0x80 + 0x80 * Value(t);
      EncodingLayout(Value(t));
      assert Value(t) != 0 by {
        assert Encoding(0) == [0];
        assert t[|t| - 1] == bs[|bs| - 1] != 0;
      }
      assert v >= 0x80;
      assert v % 0x80 == bs[0] % 0x80 && v / 0x80 == Value(t) by {
        DivModUnique(v, 0x80, Value(t), bs[0] % 0x80);
      }
    }
  }

  /** The encodings of 0, 127, 128 and 300. */
  lemma EncodingExamples()
    ensures Encoding(0) == [0x00]
    ensures Encoding(127) == [0x7F]
    ensures Encoding(128) == [0x80, 0x01]
    ensures Encoding(300) == [0xAC, 0x02]
  {
  }

  /** The largest uint64_t needs 10 bytes. */
  lemma EncodingOfMax()
    ensures Encoding(0xFFFF_FFFF_FFFF_FFFF) ==
      [0xFF, 0xFF, 0xFF, 0xFF, 0xFF, 0xFF, 0xFF, 0xFF, 0xFF, 0x01]
  {
    var v := 0xFFFF_FFFF_FFFF_FFFF;
    assert Encoding(v / 0x80 / 0x80 / 0x80 / 0x80 / 0x80 / 0x80 / 0x80 / 0x80 / 0x80) == [0x01];
  }

  // ---------------------------------------------------------------------------
  // Decoding

  /** Index of the first end byte in bs[i..], looking no further than index limit - 1. */
  function FirstLast(bs: seq<uint8>, i: nat, limit: nat): (r: Option<nat>)
    ensures r.Some? ==> i <= r.value < limit && r.value < |bs| && IsLast(bs[r.value])
    ensures r.Some? ==> forall j | i <= j < r.value :: !IsLast(bs[j])
    ensures r.None? ==> forall j | i <= j < limit && j < |bs| :: !IsLast(bs[j])
    decreases |bs| - i
  {
    if i >= limit || i >= |bs| then None
    else if IsLast(bs[i]) then Some(i)
    else FirstLast(bs, i + 1, limit)
  }

  /** The C decoder stays inside bs: it finds an end byte within bs, or bs has
      room for all VARINTS_MAX_ENCODED_LEN bytes it may read. */
  predicate Readable(bs: seq<uint8>)
  {
    |bs| >= MAX_ENCODED_LEN || FirstLast(bs, 0, MAX_ENCODED_LEN).Some?
  }

  /** What the decoder computes: the value of the bytes up to and including the
      first end byte, if one occurs among the first VARINTS_MAX_ENCODED_LEN bytes. */
  function Decode(bs: seq<uint8>): DecodeResult
  {
    match FirstLast(bs, 0, MAX_ENCODED_LEN)
    case Some(k) => PrefixValueBelow(bs, k + 1); Decoded(Value(bs[..k + 1]), k + 1)
    case None => Incomplete
  }

  /** At most VARINTS_MAX_ENCODED_LEN groups hold less than 63 bits. */
  lemma PrefixValueBelow(bs: seq<uint8>, n: nat)
    requires n <= MAX_ENCODED_LEN && n <= |bs|
    ensures Value(bs[..n]) < 0x8000_0000_0000_0000
  {
    ValueBound(bs[..n]);
    Pow2Values();
    Pow2Monotone(7 * n, 63);
  }

  /** The value of k groups fits in 7k bits. */
  lemma {:induction false} ValueBound(bs: seq<uint8>)
    ensures Value(bs) < Pow2(7 * |bs|)
  {
    if bs != [] {
      ValueBound(bs[1..]);
      Pow2Values();
      Pow2Add(7, 7 * (|bs| - 1));
      assert 7 * |bs| == 7 + 7 * (|bs| - 1);
    }
  }

  /** One more group lands at bit position 7 * |bs|. */
  lemma {:induction false} ValueAppend(bs: seq<uint8>, b: uint8)
    ensures Value(bs + [b]) == Value(bs) + (b % 0x80) * Pow2(7 * |bs|)
  {
    if bs != [] {
      var t := bs[1..];
      assert (bs + [b])[1..] == t + [b];
      ValueAppend(t, b);
      var p := Pow2(7 * |t|);
      var g := b % 0x80;
      assert Pow2(7 * |bs|) == 0x80 * p by {
        Pow2Values();
        Pow2Add(7, 7 * |t|);
        assert 7 * |bs| == 7 + 7 * |t|;
      }
      calc {
        Value(bs + [b]);
        bs[0] % 0x80 + 0x80 * Value(t + [b]);
        bs[0] % 0x80 + 0x80 * (Value(t) + g * p);
        { Distribute(Value(t), g, p); }
        bs[0] % 0x80 + 0x80 * Value(t) + g * (0x80 * p);
      }
    } else {
      assert [b][1..] == [];
    }
  }

  lemma Distribute(v: int, g: int, p: int)
    ensures 0x80 * (v + g * p) == 0x80 * v + g * (0x80 * p)
  {
  }

  /** The decoder's findings: a result reports how many bytes ended at the first
      end byte and a value below 2^63; no result means none of the first
      VARINTS_MAX_ENCODED_LEN bytes ends the varint. */
  lemma DecodeSound(bs: seq<uint8>)
    ensures Decode(bs).Decoded? ==>
      var n := Decode(bs).consumed;
      1 <= n <= MAX_ENCODED_LEN && n <= |bs| && IsLast(bs[n - 1]) &&
      (forall j | 0 <= j < n - 1 :: !IsLast(bs[j])) &&
      Decode(bs).value == Value(bs[..n]) &&
      Decode(bs).value < 0x8000_0000_0000_0000
    ensures !Decode(bs).Overflow?
    ensures Readable(bs) && Decode(bs).Incomplete? ==>
      MAX_ENCODED_LEN <= |bs| && forall j | 0 <= j < MAX_ENCODED_LEN :: !IsLast(bs[j])
  {
    if Decode(bs).Decoded? {
      PrefixValueBelow(bs, Decode(bs).consumed);
    }
  }

  /** FirstLast finds an end byte k that has no end byte before it. */
  lemma {:induction false} FirstLastAt(bs: seq<uint8>, i: nat, k: nat, limit: nat)
    requires i <= k < limit && k < |bs| && IsLast(bs[k])
    requires forall j | i <= j < k :: !IsLast(bs[j])
    ensures FirstLast(bs, i, limit) == Some(k)
    decreases k - i
  {
    if i < k {
      FirstLastAt(bs, i + 1, k, limit);
    }
  }

  /** Unsigned round trip: below 2^63, decoding the encoding (whatever follows it)
      gives back the value and consumes exactly the encoded bytes. */
  lemma RoundTrip(v: nat, rest: seq<uint8>)
    requires v < 0x8000_0000_0000_0000
    ensures Decode(Encoding(v) + rest) == Decoded(v, |Encoding(v)|)
  {
    var e := Encoding(v);
    var bs := e + rest;
    EncodingBound(v);
    EncodingLayout(v);
    EncodingValue(v);
    FirstLastAt(bs, 0, |e| - 1, MAX_ENCODED_LEN);
    assert bs[..|e|] == e;
  }

  /** From 2^63 on, the first 9 of the 10 encoded bytes all carry the continuation
      bit, so the decoder reports an incomplete varint. */
  lemma TooLongForDecoder(v: uint64, rest: seq<uint8>)
    requires v >= 0x8000_0000_0000_0000
    ensures |Encoding(v)| == MAX_ENCODED_LEN + 1
    ensures Decode(Encoding(v) + rest) == Incomplete
  {
    var e := Encoding(v);
    EncodingBound(v);
    EncodingLayout(v);
    var bs := e + rest;
    assert forall j | 0 <= j < MAX_ENCODED_LEN :: bs[j] == e[j];
  }

  /** The decoder accepts a non-minimal encoding, so re-encoding what it decoded
      need not give back the input bytes. */
  lemma DecodeAcceptsNonMinimal()
    ensures Decode([0x80, 0x00]) == Decoded(0, 2)
    ensures Encoding(Decode([0x80, 0x00]).value) != [0x80, 0x00]
  {
    var bs: seq<uint8> := [0x80, 0x00];
    FirstLastAt(bs, 0, 1, MAX_ENCODED_LEN);
    assert bs[..2] == bs;
  }

  // ---------------------------------------------------------------------------
  // Zig-zag map for signed values

  /** `(uint64_t) ((input << 1) ^ (input >> 63))` on an int64_t, with the
      shifts and the XOR acting on the two's complement representation. */
  function ZigZag(v: int64): uint64
  {
    AsrSign(v);
    Pow2Values();
    XorAllOnes(Shl64(ToU64(v), 1), 64);
    BitXor(Shl64(ToU64(v), 1), ToU64(Asr(v, 63)))
  }

  /** `(u & 1u) ? (u >> 1u) ^ -1 : (u >> 1u)`, stored into an int64_t; the -1 is
      converted to uint64_t (all ones) by the usual arithmetic conversions. */
  function UnZigZag(u: uint64): int64
  {
    Pow2Values();
    XorAllOnes(Shr(u, 1), 64);
    ToI64(if BitAnd(u, 1) != 0 then BitXor(Shr(u, 1), ToU64(-1)) else Shr(u, 1))
  }

  /** The zig-zag map sends 0, -1, 1, -2, 2, ... to 0, 1, 2, 3, 4, ... */
  lemma ZigZagValue(v: int64)
    ensures ZigZag(v) == if v >= 0 then 2 * v else -2 * v - 1
  {
    AsrSign(v);
    Pow2Values();
    if v < 0 {
      var a := ToU64(v);
      DivModUnique((a as int) * 2, U64_MODULUS, 1, 2 * v + U64_MODULUS);
      assert Shl64(a, 1) == 2 * v + U64_MODULUS;
      XorAllOnes(2 * v + U64_MODULUS, 64);
    } else {
      assert Shl64(ToU64(v), 1) == 2 * v;
    }
  }

  /** The inverse map: even numbers go to halves, odd ones to negative values. */
  lemma UnZigZagValue(u: uint64)
    ensures UnZigZag(u) == if u % 2 == 0 then u / 2 else -(u / 2) - 1
  {
    Pow2Values();
    AndLowBits(u, 1);
    XorAllOnes(Shr(u, 1), 64);
  }

  /** The two maps are inverse bijections between int64_t and uint64_t. */
  lemma ZigZagInverse(v: int64, u: uint64)
    ensures UnZigZag(ZigZag(v)) == v
    ensures ZigZag(UnZigZag(u)) == u
  {
    ZigZagValue(v);
    UnZigZagValue(ZigZag(v));
    UnZigZagValue(u);
    ZigZagValue(UnZigZag(u));
  }

  /** The first few values of the zig-zag map. */
  lemma ZigZagExamples()
    ensures ZigZag(0) == 0 && ZigZag(-1) == 1 && ZigZag(1) == 2 && ZigZag(-2) == 3
  {
    ZigZagValue(0);
    ZigZagValue(-1);
    ZigZagValue(1);
    ZigZagValue(-2);
  }

  /** The zig-zag image stays below 2^63, and so encodes in at most 9 bytes,
      exactly for -2^62 <= v < 2^62. */
  lemma ZigZagBelow(v: int64)
    ensures ZigZag(v) < 0x8000_0000_0000_0000 <==>
      -0x4000_0000_0000_0000 <= v < 0x4000_0000_0000_0000
  {
    ZigZagValue(v);
  }

  /** Signed round trip on -2^62 <= v < 2^62. */
  lemma SignedRoundTrip(v: int64, rest: seq<uint8>)
    requires -0x4000_0000_0000_0000 <= v < 0x4000_0000_0000_0000
    ensures Decode(Encoding(ZigZag(v)) + rest) == Decoded(ZigZag(v), |Encoding(ZigZag(v))|)
    ensures UnZigZag(ZigZag(v)) == v
  {
    ZigZagBelow(v);
    RoundTrip(ZigZag(v), rest);
    ZigZagInverse(v, 0);
  }

  // ---------------------------------------------------------------------------
  // The decoder as evidently intended: it accepts the 10-byte encodings the
  // encoder writes, and refuses a tenth byte that would carry the value past
  // 64 bits.

  const CORRECTED_MAX_ENCODED_LEN: nat := 10

  function DecodeCorrected(bs: seq<uint8>): (r: DecodeResult)
    ensures r.Decoded? ==> r.value < U64_MODULUS && 1 <= r.consumed <= CORRECTED_MAX_ENCODED_LEN
  {
    match FirstLast(bs, 0, CORRECTED_MAX_ENCODED_LEN)
    case Some(k) =>
      if Value(bs[..k + 1]) < U64_MODULUS then Decoded(Value(bs[..k + 1]), k + 1) else Overflow
    case None => Incomplete
  }

  /** With the corrected decoder every uint64_t value round-trips, in at most
      CORRECTED_MAX_ENCODED_LEN bytes. */
  lemma CorrectedRoundTrip(v: uint64, rest: seq<uint8>)
    ensures |Encoding(v)| <= CORRECTED_MAX_ENCODED_LEN
    ensures DecodeCorrected(Encoding(v) + rest) == Decoded(v, |Encoding(v)|)
  {
    var e := Encoding(v);
    var bs := e + rest;
    EncodingBound(v);
    EncodingLayout(v);
    EncodingValue(v);
    FirstLastAt(bs, 0, |e| - 1, CORRECTED_MAX_ENCODED_LEN);
    assert bs[..|e|] == e;
  }
}
