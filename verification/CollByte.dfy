/** Coll[Byte] registers in their two forms: tagged (`0e 01 VLQ(len) data`) and untagged
    (`0e VLQ(len) data`). A byte 01 after the collection tag is always taken for the
    element tag. */
module CollByte {
  import opened Wrappers
  import opened Bits
  import opened Vlq
  import opened IntCodec

  const COLL_TAG: Byte := 0x0e
  const SBYTE_TAG: Byte := 0x01
  const SIGMA_PROP_TAG: Byte := 0x08
  const PROVE_DLOG: Byte := 0xcd

  /** SDK, LP backend, frontend, and the backend by default. */
  function SerializeTagged(data: seq<Byte>): seq<Byte> {
    [COLL_TAG, SBYTE_TAG] + EncodeVlq(|data|) + data
  }

  /** The backend with `sbyte_included`, and the node API. */
  function SerializeUntagged(data: seq<Byte>): seq<Byte> {
    [COLL_TAG] + EncodeVlq(|data|) + data
  }

  /** Where the length starts: `buffer[1]` is compared with 01 only if it exists. */
  function LengthOffset(bytes: seq<Byte>): (offset: nat)
    ensures offset == 1 || offset == 2
    ensures bytes != [] ==> offset <= |bytes|
  {
    if |bytes| >= 2 && bytes[1] == SBYTE_TAG then 2 else 1
  }

  /** `slice(from, to)` with both ends clamped to the buffer. */
  function Slice(bytes: seq<Byte>, from: nat, to: int): (r: seq<Byte>)
    ensures from <= to <= |bytes| ==> r == bytes[from..to]
  {
    var lo := if from <= |bytes| then from else |bytes|;
    var hi := if to <= |bytes| then to else |bytes|;
    if lo <= hi then bytes[lo..hi] else []
  }

  lemma SliceAtEnd(bytes: seq<Byte>, to: int)
    ensures Slice(bytes, |bytes|, to) == []
  {
  }

  function SdkDeserialize(bytes: seq<Byte>): Result<seq<Byte>, CodecError> {
    if bytes == [] || bytes[0] != COLL_TAG then Err(WrongTag)
    else
      var offset := LengthOffset(bytes);
      var length := DecodeVlq(bytes[offset..]);
      var start := offset + length.size;
      Ok(Slice(bytes, start, start + length.value))
  }

  /** The backend insists that nothing is missing and nothing follows. */
  function BackendDeserialize(bytes: seq<Byte>): Result<seq<Byte>, CodecError> {
    if bytes == [] || bytes[0] != COLL_TAG then Err(WrongTag)
    else
      var offset := LengthOffset(bytes);
      var length := DecodeVlq(bytes[offset..]);
      var data := bytes[offset + length.size..];
      if |data| != length.value then Err(LengthMismatch) else Ok(data)
  }

  /** Negative slice bounds count from the end of a JavaScript buffer. */
  function JsSlice(bytes: seq<Byte>, from: nat, to: int): seq<Byte> {
    Slice(bytes, from, if to < 0 then |bytes| + to else to)
  }

  /** The frontend neither checks the tag nor leaves 32-bit arithmetic. */
  function FrontendDecode(bytes: seq<Byte>): seq<Byte> {
    if bytes == [] then []
    else
      var offset := LengthOffset(bytes);
      var length := ToInt32(Fold32(bytes[offset..], 0, 0));
      var start := offset + DecodeVlq(bytes[offset..]).size;
      JsSlice(bytes, start, start + length)
  }

  /** The frontend's loop, on the shared variable `offset`. */
  method FrontendDecodeLoop(bytes: seq<Byte>) returns (data: seq<Byte>)
    ensures data == FrontendDecode(bytes)
  {
    if bytes == [] {
      return [];
    }
    var offset := 1;
    if |bytes| > 1 && bytes[1] == SBYTE_TAG {
      offset := 2;
    }
    var length, next := DecodeLoop32(bytes, offset);
    data := JsSlice(bytes, next, next + ToInt32(length));
  }

  /** The backend's scan for the end of the length, byte by byte. */
  method ScanLength(remaining: seq<Byte>) returns (lengthBytes: seq<Byte>)
    ensures lengthBytes == remaining[..DecodeVlq(remaining).size]
  {
    lengthBytes := [];
    var i := 0;
    while i < |remaining|
      invariant 0 <= i <= |remaining|
      invariant lengthBytes == remaining[..i]
      invariant DecodeVlq(remaining).size == i + DecodeVlq(remaining[i..]).size
    {
      var byte := remaining[i];
      assert remaining[i..][1..] == remaining[i + 1..];
      assert remaining[..i] + [byte] == remaining[..i + 1];
      lengthBytes := lengthBytes + [byte];
      i := i + 1;
      if byte < 128 {
        return;
      }
    }
  }

  /** Reading only the bytes of the length gives the same value as reading on. */
  lemma {:induction false} LengthBytesSuffice(remaining: seq<Byte>)
    ensures DecodeVlq(remaining[..DecodeVlq(remaining).size]) == DecodeVlq(remaining)
  {
    if remaining != [] && remaining[0] >= 128 {
      LengthBytesSuffice(remaining[1..]);
      var size := DecodeVlq(remaining).size;
      assert remaining[..size][1..] == remaining[1..][..size - 1];
    }
  }

  method BackendDeserializeScan(bytes: seq<Byte>) returns (r: Result<seq<Byte>, CodecError>)
    ensures r == BackendDeserialize(bytes)
  {
    if bytes == [] || bytes[0] != COLL_TAG {
      return Err(WrongTag);
    }
    var remaining := bytes[1..];
    if remaining != [] && remaining[0] == SBYTE_TAG {
      remaining := remaining[1..];
    }
    assert remaining == bytes[LengthOffset(bytes)..];
    var lengthBytes := ScanLength(remaining);
    LengthBytesSuffice(remaining);
    var length := ScanLoop(lengthBytes, 0);
    assert lengthBytes[0..] == lengthBytes;
    var data := remaining[|lengthBytes|..];
    assert data == bytes[LengthOffset(bytes) + |lengthBytes|..];
    if |data| != length {
      return Err(LengthMismatch);
    }
    return Ok(data);
  }

  // ----- Round trips -----

  /** The SDK's decoder recovers the tagged form, whatever follows. */
  lemma SdkReadsTagged(data: seq<Byte>, suffix: seq<Byte>)
    ensures SdkDeserialize(SerializeTagged(data) + suffix) == Ok(data)
    ensures LengthOffset(SerializeTagged(data) + suffix) == 2
    ensures DecodeVlq((SerializeTagged(data) + suffix)[2..]) == Reading(|data|, |EncodeVlq(|data|)|)
  {
    var bytes := SerializeTagged(data) + suffix;
    var vlq := EncodeVlq(|data|);
    assert bytes[0] == COLL_TAG && bytes[1] == SBYTE_TAG;
    assert bytes[2..] == vlq + (data + suffix);
    VlqDelimited(|data|, data + suffix);
    assert bytes[2 + |vlq|..2 + |vlq| + |data|] == data;
  }

  /** Every decoder recovers the tagged form for every length: the frontend while the length
      fits its 32-bit arithmetic. */
  lemma DecodersReadTagged(data: seq<Byte>)
    ensures SdkDeserialize(SerializeTagged(data)) == BackendDeserialize(SerializeTagged(data)) == Ok(data)
    ensures |data| < 0x8000_0000 ==> FrontendDecode(SerializeTagged(data)) == data
  {
    var bytes := SerializeTagged(data);
    assert bytes + [] == bytes;
    SdkReadsTagged(data, []);
    var vlq := EncodeVlq(|data|);
    assert bytes[2 + |vlq|..] == data;
    if |data| < 0x8000_0000 {
      FrontendLength(bytes[2..], |data|);
    }
  }

  lemma FrontendLength(tail: seq<Byte>, length: nat)
    requires length < 0x8000_0000 && DecodeVlq(tail) == Reading(length, |EncodeVlq(length)|)
    ensures ToInt32(Fold32(tail, 0, 0)) == length
  {
    WordSizes();
    VlqSizeBound(length, 5);
    Decode32IsLowWord(tail);
    SmallPattern(length);
  }

  lemma VlqStartsWithOne(n: nat)
    ensures EncodeVlq(n)[0] == 1 <==> n == 1
  {
  }

  lemma ReadUntagged(data: seq<Byte>)
    requires |data| != 1
    ensures LengthOffset(SerializeUntagged(data)) == 1
    ensures DecodeVlq(SerializeUntagged(data)[1..]) == Reading(|data|, |EncodeVlq(|data|)|)
    ensures SerializeUntagged(data)[1 + |EncodeVlq(|data|)|..] == data
  {
    var bytes := SerializeUntagged(data);
    var vlq := EncodeVlq(|data|);
    VlqStartsWithOne(|data|);
    assert bytes[1] == vlq[0];
    assert bytes[1..] == vlq + data;
    VlqDelimited(|data|, data);
  }

  lemma OneByteLength(data: seq<Byte>)
    requires |data| == 1
    ensures DecodeVlq(data) == Reading(data[0] % 128, 1)
  {
    assert data[1..] == [];
    assert DecodeVlq([]) == Reading(0, 0);
  }

  /** One byte of data: its length, 01, is taken for the element tag and the data byte for
      the length, so nothing is left to return; the backend notices unless that length is 0. */
  lemma OneByteLost(data: seq<Byte>)
    requires |data| == 1
    ensures
      var bytes := SerializeUntagged(data);
      && SdkDeserialize(bytes) == Ok([])
      && FrontendDecode(bytes) == []
      && BackendDeserialize(bytes) == if data[0] % 128 == 0 then Ok([]) else Err(LengthMismatch)
  {
    var bytes := SerializeUntagged(data);
    assert bytes == [COLL_TAG, SBYTE_TAG, data[0]];
    assert bytes[2..] == data;
    OneByteLength(data);
    SliceAtEnd(bytes, 3 + DecodeVlq(data).value);
  }

  lemma FrontendReadsUntagged(data: seq<Byte>)
    requires 1 != |data| < 0x8000_0000
    ensures FrontendDecode(SerializeUntagged(data)) == data
  {
    var bytes := SerializeUntagged(data);
    ReadUntagged(data);
    assert bytes[1 + |EncodeVlq(|data|)|..|bytes|] == data;
    FrontendLength(bytes[1..], |data|);
  }

  lemma DecodersReadUntagged(data: seq<Byte>)
    requires |data| != 1
    ensures SdkDeserialize(SerializeUntagged(data)) == BackendDeserialize(SerializeUntagged(data)) == Ok(data)
    ensures |data| < 0x8000_0000 ==> FrontendDecode(SerializeUntagged(data)) == data
  {
    var bytes := SerializeUntagged(data);
    ReadUntagged(data);
    assert bytes[1 + |EncodeVlq(|data|)|..|bytes|] == data;
    if |data| < 0x8000_0000 {
      FrontendReadsUntagged(data);
    }
  }

  /** Every decoder recovers the untagged form exactly when the length is not 1, the frontend
      while the length fits its 32-bit arithmetic. */
  lemma DecodersReadUntaggedIff(data: seq<Byte>)
    ensures SdkDeserialize(SerializeUntagged(data)) == Ok(data) <==> |data| != 1
    ensures BackendDeserialize(SerializeUntagged(data)) == Ok(data) <==> |data| != 1
    ensures |data| < 0x8000_0000 ==> (FrontendDecode(SerializeUntagged(data)) == data <==> |data| != 1)
  {
    if |data| == 1 {
      OneByteLost(data);
    } else {
      DecodersReadUntagged(data);
    }
  }

  // ----- SigmaProp (backend) -----

  function BackendSerializeSigmaProp(key: seq<Byte>): Result<seq<Byte>, CodecError> {
    if |key| != 33 then Err(BadKeyLength) else Ok([SIGMA_PROP_TAG, PROVE_DLOG] + key)
  }

  function BackendDeserializeSigmaProp(bytes: seq<Byte>): Result<seq<Byte>, CodecError> {
    if |bytes| < 2 || bytes[0] != SIGMA_PROP_TAG || bytes[1] != PROVE_DLOG then Err(WrongTag)
    else if |bytes| - 2 != 33 then Err(BadKeyLength)
    else Ok(bytes[2..])
  }

  // ----- The backend's dispatch on the tag -----

  datatype ErgoValue =
    | IntValue(i: int)
    | LongValue(l: int)
    | CollByteValue(data: seq<Byte>)
    | SigmaPropValue(key: seq<Byte>)

  function BackendSerialize(v: ErgoValue): Result<seq<Byte>, CodecError> {
    match v
    case IntValue(i) => BackendSerializeInt(i)
    case LongValue(l) => BackendSerializeLong(l)
    case CollByteValue(data) => Ok(SerializeTagged(data))
    case SigmaPropValue(key) => BackendSerializeSigmaProp(key)
  }

  function BackendDeserializeValue(bytes: seq<Byte>): Result<ErgoValue, CodecError> {
    if bytes != [] && bytes[0] == INT_TAG then
      BackendDeserializeInt(bytes).Map(i => IntValue(i))
    else if bytes != [] && bytes[0] == LONG_TAG then
      BackendDeserializeLong(bytes).Map(l => LongValue(l))
    else if bytes != [] && bytes[0] == COLL_TAG then
      BackendDeserialize(bytes).Map(data => CollByteValue(data))
    else if |bytes| >= 2 && bytes[0] == SIGMA_PROP_TAG && bytes[1] == PROVE_DLOG then
      BackendDeserializeSigmaProp(bytes).Map(key => SigmaPropValue(key))
    else Err(UnknownTag)
  }

  /** The backend refuses exactly the values outside its types, and whatever it serializes
      its dispatch reads back. */
  lemma BackendRoundTrip(v: ErgoValue)
    ensures BackendSerialize(v).Err? <==>
              || (v.IntValue? && !IsInt32(v.i))
              || (v.LongValue? && !IsInt64(v.l))
              || (v.SigmaPropValue? && |v.key| != 33)
    ensures BackendSerialize(v).Ok? ==> BackendDeserializeValue(BackendSerialize(v).value) == Ok(v)
  {
    var r := BackendSerialize(v);
    if r.Ok? {
      assert r.value + [] == r.value;
      match v
      case IntValue(i) =>
        IntEncodersAgree(i);
        IntDecodersInvert(i, []);
      case LongValue(l) =>
        LongEncodersAgree(l);
        LongDecodersInvert(l, []);
      case CollByteValue(data) =>
        SdkReadsTagged(data, []);
        assert SerializeTagged(data)[2 + |EncodeVlq(|data|)|..] == data;
      case SigmaPropValue(key) =>
        assert r.value[2..] == key;
    }
  }

  // ----- The bytes on the wire -----

  /** The two forms and the SigmaProp in numbers. */
  lemma WireForms(data: seq<Byte>)
    ensures SerializeTagged(data) == [0x0e, 1] + EncodeVlq(|data|) + data
    ensures SerializeUntagged(data) == [0x0e] + EncodeVlq(|data|) + data
    ensures |data| == 33 ==> BackendSerializeSigmaProp(data) == Ok([8, 0xcd] + data)
  {
  }

  /** Anything without the collection tag is refused by the SDK and the backend; the backend
      also refuses data that is not as long as its length says; the frontend does not look. */
  lemma CollRefusals(bytes: seq<Byte>)
    ensures SdkDeserialize(bytes) == Err(WrongTag) <==> bytes == [] || bytes[0] != 0x0e
    ensures SdkDeserialize(bytes).Ok? <==> bytes != [] && bytes[0] == 0x0e
    ensures BackendDeserialize(bytes) == Err(WrongTag) <==> bytes == [] || bytes[0] != 0x0e
    ensures BackendDeserialize(bytes).Ok? ==>
              var data := BackendDeserialize(bytes).value;
              |data| <= |bytes| && data == bytes[|bytes| - |data|..] && SdkDeserialize(bytes) == Ok(data)
    ensures FrontendDecode([]) == []
  {
    if bytes != [] && bytes[0] == COLL_TAG {
      var offset := LengthOffset(bytes);
      var start := offset + DecodeVlq(bytes[offset..]).size;
      assert bytes[start..|bytes|] == bytes[start..];
    }
  }

  /** The dispatch refuses exactly what has no known tag, or the wrong length for it. */
  lemma DispatchRefusals(bytes: seq<Byte>)
    ensures BackendDeserializeValue(bytes) == Err(UnknownTag) <==>
              bytes == [] || (bytes[0] !in {2, 4, 0x0e} && !(|bytes| >= 2 && bytes[0] == 8 && bytes[1] == 0xcd))
    ensures bytes != [] && bytes[0] == 2 ==> BackendDeserializeValue(bytes).Ok?
    ensures bytes != [] && bytes[0] == 4 ==> BackendDeserializeValue(bytes).Ok?
    ensures |bytes| >= 2 && bytes[0] == 8 && bytes[1] == 0xcd ==>
              (BackendDeserializeValue(bytes).Ok? <==> |bytes| == 35)
  {
  }

  /** A SigmaProp is read exactly from its two tag bytes and a key of 33; other tags and other
      lengths have their own errors. */
  lemma SigmaPropRefusals(bytes: seq<Byte>)
    ensures
      var tagged := |bytes| >= 2 && bytes[0] == 8 && bytes[1] == 0xcd;
      && (BackendDeserializeSigmaProp(bytes) == Err(WrongTag) <==> !tagged)
      && (BackendDeserializeSigmaProp(bytes) == Err(BadKeyLength) <==> tagged && |bytes| != 35)
      && (tagged && |bytes| == 35 ==> BackendDeserializeSigmaProp(bytes) == Ok(bytes[2..]))
  {
  }

  lemma DisagreeingParts(n: nat, data: seq<Byte>)
    ensures
      var bytes := [COLL_TAG, SBYTE_TAG] + EncodeVlq(n) + data;
      var start := 2 + |EncodeVlq(n)|;
      && bytes[0] == COLL_TAG && LengthOffset(bytes) == 2
      && DecodeVlq(bytes[2..]) == Reading(n, start - 2)
      && |bytes| == start + |data| && bytes[start..] == data
      && Slice(bytes, start, start + n) == if n < |data| then data[..n] else data
  {
    var bytes: seq<Byte> := [COLL_TAG, SBYTE_TAG] + EncodeVlq(n) + data;
    var start := 2 + |EncodeVlq(n)|;
    assert bytes[2..] == EncodeVlq(n) + data;
    VlqDelimited(n, data);
    assert bytes[start..] == data;
    if n < |data| {
      assert bytes[start..start + n] == data[..n];
    } else {
      assert bytes[start..|bytes|] == data;
    }
  }

  lemma FrontendReading(bytes: seq<Byte>, n: nat, start: nat)
    requires n < 0x8000_0000 && |bytes| >= 2 && LengthOffset(bytes) == 2
    requires DecodeVlq(bytes[2..]) == Reading(n, |EncodeVlq(n)|) && start == 2 + |EncodeVlq(n)|
    ensures FrontendDecode(bytes) == Slice(bytes, start, start + n)
  {
    FrontendLength(bytes[2..], n);
  }

  lemma FrontendDisagrees(n: nat, data: seq<Byte>)
    requires n < 0x8000_0000
    ensures FrontendDecode([COLL_TAG, SBYTE_TAG] + EncodeVlq(n) + data)
            == if n < |data| then data[..n] else data
  {
    DisagreeingParts(n, data);
    FrontendReading([COLL_TAG, SBYTE_TAG] + EncodeVlq(n) + data, n, 2 + |EncodeVlq(n)|);
  }

  lemma SdkReading(bytes: seq<Byte>, n: nat, start: nat)
    requires |bytes| >= 2 && bytes[0] == COLL_TAG && LengthOffset(bytes) == 2
    requires start >= 2 && DecodeVlq(bytes[2..]) == Reading(n, start - 2)
    ensures SdkDeserialize(bytes) == Ok(Slice(bytes, start, start + n))
  {
  }

  lemma SdkDisagrees(n: nat, data: seq<Byte>)
    ensures SdkDeserialize([COLL_TAG, SBYTE_TAG] + EncodeVlq(n) + data)
            == Ok(if n < |data| then data[..n] else data)
  {
    DisagreeingParts(n, data);
    SdkReading([COLL_TAG, SBYTE_TAG] + EncodeVlq(n) + data, n, 2 + |EncodeVlq(n)|);
  }

  /** A length that disagrees with the data: SDK and frontend give as much of the data as there
      is, up to the length; the backend refuses. */
  lemma LengthDisagrees(n: nat, data: seq<Byte>)
    requires |data| != n
    ensures
      var bytes := [COLL_TAG, SBYTE_TAG] + EncodeVlq(n) + data;
      var part := if n < |data| then data[..n] else data;
      && SdkDeserialize(bytes) == Ok(part)
      && (n < 0x8000_0000 ==> FrontendDecode(bytes) == part)
      && BackendDeserialize(bytes) == Err(LengthMismatch)
  {
    SdkDisagrees(n, data);
    DisagreeingParts(n, data);
    if n < 0x8000_0000 {
      FrontendDisagrees(n, data);
    }
  }
}
