/** Int and Long registers: a type tag, then the VLQ of the ZigZag value. The repository
    writes this codec four times (SDK, backend, LP backend, frontend) and reads it five
    times; registers are byte strings here, hex text in the source. */
module IntCodec {
  import opened Wrappers
  import opened Bits
  import opened Vlq

  const INT_TAG: Byte := 0x02
  const LONG_TAG: Byte := 0x04

  // Sign-bit positions: the right shifts of the ZigZag formulas.
  const INT_SIGN: nat := 31
  const LONG_SIGN: nat := 63

  datatype CodecError = WrongTag | UnknownTag | OutOfRange | LengthMismatch | BadKeyLength

  // ----- ZigZag -----

  /** What every encoder means: 0, -1, 1, -2, ... become 0, 1, 2, 3, ... */
  function ZigZag(v: int): nat {
    if v >= 0 then 2 * v else -2 * v - 1
  }

  function UnZigZag(z: nat): int {
    if z % 2 == 0 then z / 2 else -(z / 2) - 1
  }

  /** SDK and frontend, 32-bit: `(v << 1) ^ (v >> 31)`. */
  function ZigZag32(v: int): (z: int)
    ensures IsInt32(z)
  {
    ToInt32(Xor(ToInt32(WordShl(U32(v), 1)), Shr(ToInt32(v), INT_SIGN)))
  }

  /** Backends and BigInt code, unbounded: `(v << 1) ^ (v >> sign)`. */
  function ZigZagWide(v: int, sign: nat): (z: nat) {
    XorSign(2 * v, Shr(v, sign));
    Xor(2 * v, Shr(v, sign))
  }

  /** Unbounded decoding: `(z >> 1) ^ -(z & 1)`. */
  function UnZigZagWide(z: nat): int {
    Xor(Shr(z, 1), -(z % 2))
  }

  /** 32-bit decoding: `(z >>> 1) ^ -(z & 1)`. */
  function UnZigZag32(z: nat): (v: int)
    ensures IsInt32(v)
  {
    ToInt32(Xor(ToInt32(WordShr(U32(z), 1)), -(z % 2)))
  }

  // ----- Encoders -----

  function Tagged(tag: Byte, z: nat): seq<Byte> {
    [tag] + EncodeVlq(z)
  }

  /** The SDK adds 2^32 to a negative 32-bit number before the VLQ. */
  function Unsigned(z: int): nat
    requires IsInt32(z)
  {
    if z < 0 then z + 0x1_0000_0000 else z
  }

  function SdkSerializeInt(v: int): seq<Byte> {
    Tagged(INT_TAG, Unsigned(ZigZag32(v)))
  }

  function FrontendEncodeInt(v: int): seq<Byte> {
    Tagged(INT_TAG, U32(ZigZag32(v)))
  }

  function LpSerializeInt(v: int): seq<Byte> {
    Tagged(INT_TAG, ZigZagWide(v, INT_SIGN) % 0x1_0000_0000)
  }

  function BackendSerializeInt(v: int): Result<seq<Byte>, CodecError> {
    if v < -0x8000_0000 || v > 0x7fff_ffff then Err(OutOfRange)
    else Ok(Tagged(INT_TAG, ZigZagWide(v, INT_SIGN)))
  }

  function SdkSerializeLong(v: int): seq<Byte> {
    Tagged(LONG_TAG, ZigZagWide(v, LONG_SIGN))
  }

  function FrontendEncodeLong(v: int): seq<Byte> {
    Tagged(LONG_TAG, ZigZagWide(v, LONG_SIGN) % 0x1_0000_0000_0000_0000)
  }

  function LpSerializeLong(v: int): seq<Byte> {
    Tagged(LONG_TAG, ZigZagWide(v, LONG_SIGN) % 0x1_0000_0000_0000_0000)
  }

  function BackendSerializeLong(v: int): Result<seq<Byte>, CodecError> {
    if v < -0x8000_0000_0000_0000 || v > 0x7fff_ffff_ffff_ffff then Err(OutOfRange)
    else Ok(Tagged(LONG_TAG, ZigZagWide(v, LONG_SIGN)))
  }

  // ----- Decoders -----

  function SdkDeserializeInt(bytes: seq<Byte>): Result<int, CodecError> {
    if bytes == [] || bytes[0] != INT_TAG then Err(WrongTag)
    else Ok(UnZigZag32(DecodeVlq(bytes[1..]).value))
  }

  function SdkDeserializeLong(bytes: seq<Byte>): Result<int, CodecError> {
    if bytes == [] || bytes[0] != LONG_TAG then Err(WrongTag)
    else Ok(UnZigZagWide(DecodeVlq(bytes[1..]).value))
  }

  function BackendDeserializeInt(bytes: seq<Byte>): Result<int, CodecError> {
    if bytes == [] || bytes[0] != INT_TAG then Err(WrongTag)
    else Ok(UnZigZagWide(DecodeVlq(bytes[1..]).value))
  }

  function BackendDeserializeLong(bytes: seq<Byte>): Result<int, CodecError> {
    if bytes == [] || bytes[0] != LONG_TAG then Err(WrongTag)
    else Ok(UnZigZagWide(DecodeVlq(bytes[1..]).value))
  }

  /** LP backend `_extract_int_from_serialized`: either tag, zero for anything else. */
  function LpExtractInt(bytes: seq<Byte>): int {
    if |bytes| < 2 || (bytes[0] != INT_TAG && bytes[0] != LONG_TAG) then 0
    else UnZigZagWide(DecodeVlq(bytes[1..]).value)
  }

  /** SDK pool manager: zero for a wrong tag, 32-bit arithmetic throughout. */
  function PoolDeserializeInt(bytes: seq<Byte>): int {
    if bytes == [] || bytes[0] != INT_TAG then 0
    else UnZigZag32(Fold32(bytes[1..], 0, 0))
  }

  function PoolDeserializeLong(bytes: seq<Byte>): int {
    if bytes == [] || bytes[0] != LONG_TAG then 0
    else UnZigZagWide(DecodeVlq(bytes[1..]).value)
  }

  /** Frontend `decodeInt`: the tag is not looked at. */
  function FrontendDecodeInt(bytes: seq<Byte>): int {
    if bytes == [] then UnZigZag32(0)
    else UnZigZag32(Fold32(bytes[1..], 0, 0))
  }

  // ----- ZigZag lemmas -----

  lemma {:induction false} ShrSign(v: int, k: nat)
    ensures Shr(v, k) == 0 <==> 0 <= v < Shl(1, k)
    ensures Shr(v, k) == -1 <==> -Shl(1, k) <= v < 0
    decreases k
  {
    if k > 0 {
      ShrSign(v / 2, k - 1);
    }
  }

  lemma WordSizes()
    ensures Shl(1, INT_SIGN) == 0x8000_0000
    ensures Shl(1, LONG_SIGN) == 0x8000_0000_0000_0000
    ensures Shl(1, 7 * 5) == 0x8_0000_0000
  {
    var three: nat, seven: nat, twentyEight: nat := 3, 7, 28;
    Shl28(1);
    ShlTwice(1, twentyEight, three);
    assert Shl(0x1000_0000, 1) == 0x2000_0000 && Shl(0x1000_0000, 2) == 0x4000_0000;
    Shl7(0x1000_0000);
    ShlTwice(1, twentyEight, seven);
    Shl28(0x8_0000_0000);
    ShlTwice(1, twentyEight + seven, twentyEight);
  }

  lemma WideIsZigZag(v: int, sign: nat)
    requires -Shl(1, sign) <= v < Shl(1, sign)
    ensures ZigZagWide(v, sign) == ZigZag(v)
  {
    ShrSign(v, sign);
    XorZero(2 * v);
    XorMinusOne(2 * v);
  }

  lemma UnZigZagWideMeaning(z: nat)
    ensures UnZigZagWide(z) == UnZigZag(z)
  {
    XorZero(z / 2);
    XorMinusOne(z / 2);
    assert Shr(z, 1) == Shr(z / 2, 0) == z / 2;
  }

  lemma HalfPattern(z: nat)
    ensures ToInt32(WordShr(U32(z), 1)) == U32(z) / 2
  {
    WordShrByConstant(U32(z));
  }

  lemma UnZigZag32Meaning(z: nat)
    ensures UnZigZag32(z) == UnZigZag(U32(z))
  {
    var pattern := U32(z);
    assert pattern % 2 == z % 2;
    HalfPattern(z);
    XorZero(pattern / 2);
    XorMinusOne(pattern / 2);
  }

  lemma PatternOffset(x: int, k: int)
    ensures U32(x + 0x1_0000_0000 * k) == U32(x)
  {
  }

  lemma Doubling(v: int)
    ensures WordShl(U32(v), 1) == U32(2 * v)
  {
    var pattern, k := U32(v), v / 0x1_0000_0000;
    assert Shl(pattern, 1) == 2 * pattern;
    assert v == pattern + 0x1_0000_0000 * k;
    PatternOffset(2 * pattern, 2 * k);
  }

  lemma Negated(v: int)
    requires IsInt32(v) && v < 0
    ensures U32(-ToInt32(2 * v) - 1) == -2 * v - 1
  {
    if 2 * v >= -0x8000_0000 {
      assert ToInt32(2 * v) == 2 * v;
    } else {
      assert U32(2 * v) == 2 * v + 0x1_0000_0000;
      assert ToInt32(2 * v) == 2 * v + 0x1_0000_0000;
    }
  }

  lemma DoubledWord(v: int)
    ensures ToInt32(WordShl(U32(v), 1)) == ToInt32(2 * ToInt32(v))
  {
    var w := ToInt32(v);
    U32OfInt32(v);
    Doubling(w);
    SmallPattern(WordShl(U32(v), 1));
    SamePattern(WordShl(U32(v), 1), 2 * w);
  }

  /** The 32-bit form is the ZigZag of the low word of its argument. */
  lemma ZigZag32Pattern(v: int)
    ensures U32(ZigZag32(v)) == ZigZag(ToInt32(v))
  {
    var w := ToInt32(v);
    var doubled := ToInt32(2 * w);
    DoubledWord(v);
    WordSizes();
    ShrSign(w, INT_SIGN);
    if w >= 0 {
      XorZero(doubled);
      assert ZigZag32(v) == doubled;
      U32OfInt32(2 * w);
      SmallPattern(2 * w);
    } else {
      XorMinusOne(doubled);
      assert ZigZag32(v) == -doubled - 1;
      Negated(w);
    }
  }

  // ----- Agreement and round trips -----

  lemma WideIntZigZag(v: int, sign: nat)
    requires IsInt32(v) && Shl(1, sign) == 0x8000_0000
    ensures ZigZagWide(v, sign) == ZigZagWide(v, sign) % 0x1_0000_0000 == ZigZag(v) < 0x1_0000_0000
  {
    WideIsZigZag(v, sign);
    SmallPattern(ZigZag(v));
  }

  lemma WordIntZigZag(v: int)
    requires IsInt32(v)
    ensures Unsigned(ZigZag32(v)) == U32(ZigZag32(v)) == ZigZag(v)
  {
    ZigZag32Pattern(v);
    UnsignedIsPattern(ZigZag32(v));
  }

  lemma IntZigZagsAgree(v: int)
    requires IsInt32(v)
    ensures ZigZag(v) < 0x1_0000_0000
    ensures Unsigned(ZigZag32(v)) == U32(ZigZag32(v)) == ZigZag(v)
    ensures ZigZagWide(v, INT_SIGN) == ZigZagWide(v, INT_SIGN) % 0x1_0000_0000 == ZigZag(v)
  {
    WordSizes();
    WideIntZigZag(v, INT_SIGN);
    WordIntZigZag(v);
  }

  lemma UnsignedIsPattern(z: int)
    requires IsInt32(z)
    ensures Unsigned(z) == U32(z)
  {
  }

  /** Every Int encoder writes the same bytes for every 32-bit integer. */
  lemma IntEncodersAgree(v: int)
    requires IsInt32(v)
    ensures SdkSerializeInt(v) == FrontendEncodeInt(v) == LpSerializeInt(v) == Tagged(INT_TAG, ZigZag(v))
    ensures BackendSerializeInt(v) == Ok(Tagged(INT_TAG, ZigZag(v)))
  {
    IntZigZagsAgree(v);
  }

  /** What the two kinds of decoding loop find behind the tag. */
  lemma TaggedRead(tag: Byte, z: nat, suffix: seq<Byte>)
    ensures
      var bytes := Tagged(tag, z) + suffix;
      && bytes[0] == tag && |bytes| >= 2
      && DecodeVlq(bytes[1..]) == Reading(z, |Tagged(tag, z)| - 1)
  {
    assert (Tagged(tag, z) + suffix)[1..] == EncodeVlq(z) + suffix;
    VlqDelimited(z, suffix);
  }

  lemma TaggedRead32(tag: Byte, z: nat, suffix: seq<Byte>)
    requires z < 0x1_0000_0000
    ensures Fold32((Tagged(tag, z) + suffix)[1..], 0, 0) == z
  {
    TaggedRead(tag, z, suffix);
    WordSizes();
    VlqSizeBound(z, 5);
    Decode32IsLowWord((Tagged(tag, z) + suffix)[1..]);
    SmallPattern(z);
  }

  lemma UnZigZagInverts(v: int)
    ensures UnZigZag(ZigZag(v)) == v
    ensures UnZigZagWide(ZigZag(v)) == v
    ensures ZigZag(v) < 0x1_0000_0000 ==> UnZigZag32(ZigZag(v)) == v
  {
    var z := ZigZag(v);
    assert UnZigZag(z) == v;
    assert UnZigZagWide(z) == v by {
      UnZigZagWideMeaning(z);
    }
    if z < 0x1_0000_0000 {
      assert UnZigZag32(z) == v by {
        UnZigZag32Meaning(z);
        SmallPattern(z);
      }
    }
  }

  /** Every Int decoder, 32-bit or unbounded, recovers it, whatever bytes follow. */
  lemma IntDecodersInvert(v: int, suffix: seq<Byte>)
    requires IsInt32(v)
    ensures
      var bytes := SdkSerializeInt(v) + suffix;
      && SdkDeserializeInt(bytes) == BackendDeserializeInt(bytes) == Ok(v)
      && LpExtractInt(bytes) == PoolDeserializeInt(bytes) == FrontendDecodeInt(bytes) == v
  {
    var z := ZigZag(v);
    IntZigZagsAgree(v);
    TaggedRead(INT_TAG, z, suffix);
    TaggedRead32(INT_TAG, z, suffix);
    UnZigZagInverts(v);
  }

  /** Every Long encoder writes the same bytes for every 64-bit integer. */
  lemma LongEncodersAgree(v: int)
    requires IsInt64(v)
    ensures SdkSerializeLong(v) == FrontendEncodeLong(v) == LpSerializeLong(v) == Tagged(LONG_TAG, ZigZag(v))
    ensures BackendSerializeLong(v) == Ok(Tagged(LONG_TAG, ZigZag(v)))
  {
    WordSizes();
    LongZigZag(v, LONG_SIGN);
  }

  lemma LongZigZag(v: int, sign: nat)
    requires IsInt64(v) && Shl(1, sign) == 0x8000_0000_0000_0000
    ensures ZigZagWide(v, sign) == ZigZagWide(v, sign) % 0x1_0000_0000_0000_0000 == ZigZag(v)
  {
    WideIsZigZag(v, sign);
  }

  lemma LongDecodersInvert(v: int, suffix: seq<Byte>)
    requires IsInt64(v)
    ensures
      var bytes := SdkSerializeLong(v) + suffix;
      && SdkDeserializeLong(bytes) == BackendDeserializeLong(bytes) == Ok(v)
      && LpExtractInt(bytes) == PoolDeserializeLong(bytes) == v
  {
    LongEncodersAgree(v);
    TaggedRead(LONG_TAG, ZigZag(v), suffix);
    UnZigZagInverts(v);
  }

  /** The SDK accepts any number and reads back its low word: it round-trips exactly the
      32-bit integers. */
  lemma SdkIntReadsLowWord(v: int, suffix: seq<Byte>)
    ensures SdkDeserializeInt(SdkSerializeInt(v) + suffix) == Ok(ToInt32(v))
    ensures SdkDeserializeInt(SdkSerializeInt(v) + suffix) == Ok(v) <==> IsInt32(v)
  {
    var w := ToInt32(v);
    assert Unsigned(ZigZag32(v)) == ZigZag(w) by {
      ZigZag32Pattern(v);
      UnsignedIsPattern(ZigZag32(v));
    }
    assert ZigZag(w) < 0x1_0000_0000;
    TaggedRead(INT_TAG, ZigZag(w), suffix);
    UnZigZagInverts(w);
  }

  /** A wide ZigZag is undone exactly when the shifted-in bits are a plain sign. */
  lemma WideUndoneIff(v: int, sign: nat)
    ensures UnZigZag(ZigZagWide(v, sign)) == v <==> Shr(v, sign) == 0 || Shr(v, sign) == -1
  {
    var high := Shr(v, sign);
    var z := ZigZagWide(v, sign);
    if high == 0 || high == -1 {
      XorZero(2 * v);
      XorMinusOne(2 * v);
    } else {
      assert z / 2 == Xor(v, high / 2) && z % 2 == high % 2;
      XorUnchanged(v, high / 2);
      XorComplement(v, high / 2);
    }
  }

  /** The SDK does not check the range of a Long; it round-trips exactly the 64-bit integers. */
  lemma SdkLongRoundTripIff(v: int, suffix: seq<Byte>)
    ensures SdkDeserializeLong(SdkSerializeLong(v) + suffix) == Ok(v) <==> IsInt64(v)
  {
    var z := ZigZagWide(v, LONG_SIGN);
    TaggedRead(LONG_TAG, z, suffix);
    UnZigZagWideMeaning(z);
    WideUndoneIff(v, LONG_SIGN);
    WordSizes();
    ShrSign(v, LONG_SIGN);
  }

  // ----- The bytes on the wire -----

  /** The bytes of an Int and a Long: tag 2 or 4, then the VLQ of 2v for a non-negative v and
      of -2v - 1 for a negative one. */
  lemma WireBytes(v: int)
    ensures IsInt32(v) ==> SdkSerializeInt(v) == [2] + EncodeVlq(if v >= 0 then 2 * v else -2 * v - 1)
    ensures IsInt64(v) ==> SdkSerializeLong(v) == [4] + EncodeVlq(if v >= 0 then 2 * v else -2 * v - 1)
  {
    if IsInt32(v) {
      IntEncodersAgree(v);
    }
    if IsInt64(v) {
      LongEncodersAgree(v);
    }
  }

  /** The backend refuses exactly the numbers outside its types. */
  lemma RangeRefusals(v: int)
    ensures BackendSerializeInt(v).Ok? <==> -2147483648 <= v <= 2147483647
    ensures BackendSerializeLong(v).Ok? <==> -9223372036854775808 <= v <= 9223372036854775807
    ensures BackendSerializeInt(v).Err? ==> BackendSerializeInt(v) == Err(OutOfRange)
    ensures BackendSerializeLong(v).Err? ==> BackendSerializeLong(v) == Err(OutOfRange)
  {
  }

  /** What each decoder makes of bytes with another tag: an error, or zero, or the frontend's
      reading of what follows whatever the tag. */
  lemma TagRefusals(bytes: seq<Byte>)
    ensures SdkDeserializeInt(bytes).Ok? <==> bytes != [] && bytes[0] == 2
    ensures SdkDeserializeLong(bytes).Ok? <==> bytes != [] && bytes[0] == 4
    ensures BackendDeserializeInt(bytes).Ok? <==> bytes != [] && bytes[0] == 2
    ensures BackendDeserializeLong(bytes).Ok? <==> bytes != [] && bytes[0] == 4
    ensures bytes == [] || bytes[0] != 2 ==> PoolDeserializeInt(bytes) == 0
    ensures bytes == [] || bytes[0] != 4 ==> PoolDeserializeLong(bytes) == 0
    ensures |bytes| < 2 || (bytes[0] != 2 && bytes[0] != 4) ==> LpExtractInt(bytes) == 0
    ensures bytes != [] ==> FrontendDecodeInt(bytes) == PoolDeserializeInt([2] + bytes[1..])
  {
    if bytes != [] {
      assert ([2] + bytes[1..])[1..] == bytes[1..];
    }
  }
}
