/** The SDK's recursive codec for register values. A pair is split by
    `getSerializedValueLength`, which knows the length of Int, Long, Coll[Byte], Boolean
    and of an Option taken to be None; this decides which values come back. */
module SValueCodec {
  import opened Wrappers
  import opened Bits
  import opened Vlq
  import opened IntCodec
  import opened CollByte

  const FALSE_TAG: Byte := 0x06
  const TRUE_TAG: Byte := 0x07
  const OPTION_TAG: Byte := 0x0b
  const PAIR_TAG: Byte := 0x0d

  datatype SValue =
    | SInt(i: int)
    | SLong(l: int)
    | SCollByte(data: seq<Byte>)
    | SCollSByte(sdata: seq<Byte>)
    | SSigmaProp(key: seq<Byte>)
    | SBoolean(b: bool)
    | SNone
    | SSome(inner: SValue)
    | SPair(left: SValue, right: SValue)

  // ----- Printer -----

  function SerializeSigmaProp(key: seq<Byte>): Result<seq<Byte>, CodecError> {
    if |key| != 33 then Err(BadKeyLength) else Ok([SIGMA_PROP_TAG, PROVE_DLOG] + key)
  }

  function Serialize(v: SValue): (r: Result<seq<Byte>, CodecError>)
    ensures r.Ok? ==> r.value != []
  {
    match v
    case SInt(i) => Ok(SdkSerializeInt(i))
    case SLong(l) => Ok(SdkSerializeLong(l))
    case SCollByte(data) => Ok(SerializeTagged(data))
    case SCollSByte(data) => Ok(SerializeTagged(data))
    case SSigmaProp(key) => SerializeSigmaProp(key)
    case SBoolean(b) => Ok([if b then TRUE_TAG else FALSE_TAG])
    case SNone => Ok([OPTION_TAG])
    case SSome(inner) =>
      var r := Serialize(inner);
      if r.Err? then r else Ok([OPTION_TAG] + r.value)
    case SPair(left, right) =>
      var l := Serialize(left);
      if l.Err? then l
      else
        var r := Serialize(right);
        if r.Err? then r else Ok([PAIR_TAG] + l.value + r.value)
  }

  // ----- Parser -----

  /** `getSerializedValueLength`: not clamped to the buffer. */
  function ValueLength(bytes: seq<Byte>): (n: nat)
    requires bytes != []
    ensures n >= 1
  {
    var tag := bytes[0];
    if tag == FALSE_TAG || tag == TRUE_TAG || tag == OPTION_TAG then 1
    else if tag == INT_TAG || tag == LONG_TAG then 1 + DecodeVlq(bytes[1..]).size
    else if tag == COLL_TAG then
      var offset := LengthOffset(bytes);
      var length := DecodeVlq(bytes[offset..]);
      offset + length.size + length.value
    else |bytes|
  }

  /** `hex.substring(2 * from)`: empty when `from` is past the end. */
  function Drop(bytes: seq<Byte>, from: nat): seq<Byte> {
    if from <= |bytes| then bytes[from..] else []
  }

  /** Terminates on every byte string, well-formed or not. */
  function Deserialize(bytes: seq<Byte>): Result<SValue, CodecError>
    decreases |bytes|
  {
    if bytes == [] then Err(UnknownTag)
    else
      var tag := bytes[0];
      if tag == INT_TAG then SdkDeserializeInt(bytes).Map(i => SInt(i))
      else if tag == LONG_TAG then SdkDeserializeLong(bytes).Map(l => SLong(l))
      else if tag == COLL_TAG then SdkDeserialize(bytes).Map(data => SCollByte(data))
      else if tag == SIGMA_PROP_TAG then Ok(SSigmaProp(bytes[1..]))
      else if tag == FALSE_TAG || tag == TRUE_TAG then Ok(SBoolean(tag == TRUE_TAG))
      else if tag == OPTION_TAG then
        if |bytes| == 1 then Ok(SNone)
        else
          var inner := Deserialize(bytes[1..]);
          if inner.Err? then inner else Ok(SSome(inner.value))
      else if tag == PAIR_TAG then
        var rest := bytes[1..];
        var left := Deserialize(rest);
        if left.Err? then left
        else
          assert rest != [];
          var right := Deserialize(Drop(rest, ValueLength(rest)));
          if right.Err? then right else Ok(SPair(left.value, right.value))
      else Err(UnknownTag)
  }

  // ----- What comes back -----

  /** Coll[SByte] is read as Coll[Byte]; the bytes are the same. */
  function Norm(v: SValue): SValue {
    match v
    case SCollSByte(data) => SCollByte(data)
    case SSome(inner) => SSome(Norm(inner))
    case SPair(left, right) => SPair(Norm(left), Norm(right))
    case _ => v
  }

  /** A value whose length the pair parser can compute. */
  predicate Simple(v: SValue) {
    v.SInt? || v.SLong? || v.SCollByte? || v.SCollSByte? || v.SBoolean?
  }

  predicate InRange(v: SValue) {
    (v.SInt? ==> IsInt32(v.i)) && (v.SLong? ==> IsInt64(v.l))
  }

  /** Comes back even when more bytes follow. */
  predicate Delimited(v: SValue) {
    match v
    case SSigmaProp(_) => false
    case SNone => false
    case SSome(inner) => Delimited(inner)
    case SPair(left, right) =>
      if Simple(left) then InRange(left) && Delimited(right)
      else left.SSome? && Delimited(left.inner) && Norm(left.inner) == Norm(right)
    case _ => InRange(v)
  }

  /** Comes back when it is the whole input. A pair with an Option on the left reads the
      same bytes twice, so it only survives when its right part repeats that option's value. */
  predicate RoundTrips(v: SValue) {
    match v
    case SNone => true
    case SSome(inner) => RoundTrips(inner)
    case SPair(left, right) =>
      if Simple(left) then InRange(left) && RoundTrips(right)
      else left.SSome? && Delimited(left.inner) && Norm(left.inner) == Norm(right)
    case SSigmaProp(_) => false
    case _ => InRange(v)
  }

  lemma {:induction false} SameNormSameBytes(v: SValue, w: SValue)
    requires Norm(v) == Norm(w)
    ensures Serialize(v) == Serialize(w)
    ensures Delimited(v) == Delimited(w)
    decreases v
  {
    match v
    case SSome(inner) =>
      SameNormSameBytes(inner, w.inner);
    case SPair(left, right) =>
      SameNormSameBytes(left, w.left);
      SameNormSameBytes(right, w.right);
      if left.SSome? {
        SameNormSameBytes(left.inner, w.left.inner);
      }
    case _ =>
  }

  /** A simple value is read back from the front of its bytes exactly when it is in range,
      and its computed length is its length, in range or not. */
  lemma SimpleRead(v: SValue, suffix: seq<Byte>)
    requires Simple(v)
    ensures
      var bytes := Serialize(v).value + suffix;
      && Serialize(v).Ok?
      && Deserialize(bytes).Ok?
      && (Deserialize(bytes) == Ok(Norm(v)) <==> InRange(v))
      && ValueLength(bytes) == |Serialize(v).value|
  {
    match v
    case SInt(i) => IntRead(i, suffix);
    case SLong(l) => LongRead(l, suffix);
    case SCollByte(data) => CollRead(data, suffix);
    case SCollSByte(data) => CollRead(data, suffix);
    case SBoolean(_) =>
  }

  lemma IntRead(i: int, suffix: seq<Byte>)
    ensures
      var bytes := SdkSerializeInt(i) + suffix;
      && Deserialize(bytes).Ok? && (Deserialize(bytes) == Ok(SInt(i)) <==> IsInt32(i))
      && ValueLength(bytes) == |SdkSerializeInt(i)|
  {
    SdkIntReadsLowWord(i, suffix);
    TaggedRead(INT_TAG, Unsigned(ZigZag32(i)), suffix);
  }

  lemma LongRead(l: int, suffix: seq<Byte>)
    ensures
      var bytes := SdkSerializeLong(l) + suffix;
      && Deserialize(bytes).Ok? && (Deserialize(bytes) == Ok(SLong(l)) <==> IsInt64(l))
      && ValueLength(bytes) == |SdkSerializeLong(l)|
  {
    SdkLongRoundTripIff(l, suffix);
    TaggedRead(LONG_TAG, ZigZagWide(l, LONG_SIGN), suffix);
  }

  lemma CollRead(data: seq<Byte>, suffix: seq<Byte>)
    ensures
      var bytes := SerializeTagged(data) + suffix;
      && Deserialize(bytes) == Ok(SCollByte(data))
      && ValueLength(bytes) == |SerializeTagged(data)|
  {
    SdkReadsTagged(data, suffix);
  }

  lemma PairRest(l: seq<Byte>, r: seq<Byte>, suffix: seq<Byte>)
    ensures ([PAIR_TAG] + l + r + suffix)[1..] == l + (r + suffix)
  {
  }

  /** Unfolding the parser on a pair. */
  lemma PairParse(rest: seq<Byte>)
    requires rest != []
    ensures
      var left, right := Deserialize(rest), Deserialize(Drop(rest, ValueLength(rest)));
      Deserialize([PAIR_TAG] + rest) ==
      if left.Err? then left else if right.Err? then right else Ok(SPair(left.value, right.value))
  {
    assert ([PAIR_TAG] + rest)[1..] == rest;
  }

  lemma OptionParse(rest: seq<Byte>)
    requires rest != []
    ensures Deserialize([OPTION_TAG] + rest) == Deserialize(rest).Map(inner => SSome(inner))
  {
    assert ([OPTION_TAG] + rest)[1..] == rest;
  }

  /** Followed by anything, exactly the delimited values come back. */
  lemma {:induction false} DelimitedIff(v: SValue, suffix: seq<Byte>)
    requires Serialize(v).Ok? && suffix != []
    ensures Deserialize(Serialize(v).value + suffix) == Ok(Norm(v)) <==> Delimited(v)
    decreases v
  {
    var bytes := Serialize(v).value + suffix;
    match v
    case SSigmaProp(key) =>
      assert |bytes[1..]| > |key|;
    case SNone =>
      assert bytes == [OPTION_TAG] + suffix;
      OptionParse(suffix);
    case SSome(inner) =>
      DelimitedIff(inner, suffix);
      var rest := Serialize(inner).value + suffix;
      assert bytes == [OPTION_TAG] + rest;
      OptionParse(rest);
    case SPair(left, right) =>
      var r := Serialize(right).value;
      DelimitedIff(right, suffix);
      PairIff(left, right, suffix, Delimited(right));
    case _ =>
      SimpleRead(v, suffix);
  }

  /** What the pair parser makes of a left part, an arbitrary rest behind it. */
  lemma SimpleLeft(left: SValue, behind: seq<Byte>)
    requires Simple(left)
    ensures
      var rest := Serialize(left).value + behind;
      && rest != [] && Drop(rest, ValueLength(rest)) == behind
      && Deserialize(rest).Ok?
      && (Deserialize(rest) == Ok(Norm(left)) <==> InRange(left))
  {
    SimpleRead(left, behind);
  }

  lemma SomeLeft(left: SValue, behind: seq<Byte>)
    requires left.SSome? && Serialize(left).Ok?
    ensures
      var rest := Serialize(left).value + behind;
      var inner := Serialize(left.inner).value + behind;
      && rest != [] && Drop(rest, ValueLength(rest)) == inner
      && Deserialize(rest) == Deserialize(inner).Map(i => SSome(i))
  {
    var rest := Serialize(left).value + behind;
    var inner := Serialize(left.inner).value + behind;
    assert rest == [OPTION_TAG] + inner;
    OptionParse(inner);
  }

  lemma OtherLeft(left: SValue, behind: seq<Byte>)
    requires !Simple(left) && !left.SSome? && Serialize(left).Ok? && behind != []
    ensures
      var rest := Serialize(left).value + behind;
      && rest != []
      && (Deserialize(rest) != Ok(Norm(left)) || Drop(rest, ValueLength(rest)) == [])
  {
    var rest := Serialize(left).value + behind;
    if left.SNone? {
      assert rest == [OPTION_TAG] + behind;
      OptionParse(behind);
    } else {
      assert rest[0] == PAIR_TAG || rest[0] == SIGMA_PROP_TAG;
      assert Drop(rest, |rest|) == [];
    }
  }

  /** The pair case, shared by both predicates: `rightBack` says whether the right part
      comes back from its own bytes and what follows them. */
  lemma {:induction false} PairIff(left: SValue, right: SValue, suffix: seq<Byte>, rightBack: bool)
    requires Serialize(SPair(left, right)).Ok? && Serialize(right).Ok?
    requires Deserialize(Serialize(right).value + suffix) == Ok(Norm(right)) <==> rightBack
    ensures Deserialize(Serialize(SPair(left, right)).value + suffix) == Ok(Norm(SPair(left, right)))
            <==> if Simple(left) then InRange(left) && rightBack
                 else left.SSome? && Delimited(left.inner) && Norm(left.inner) == Norm(right)
    decreases left, 1
  {
    var l, r := Serialize(left).value, Serialize(right).value;
    var behind := r + suffix;
    var rest := l + behind;
    PairRest(l, r, suffix);
    assert Serialize(SPair(left, right)).value + suffix == [PAIR_TAG] + rest;
    PairParse(rest);
    if Simple(left) {
      SimpleLeft(left, behind);
    } else if left.SSome? {
      SomeLeft(left, behind);
      DelimitedIff(left.inner, behind);
    } else {
      OtherLeft(left, behind);
    }
  }

  /** The SDK codec gives a value back exactly when `RoundTrips` says so. */
  lemma {:induction false} RoundTripIff(v: SValue)
    ensures (Serialize(v).Ok? && Deserialize(Serialize(v).value) == Ok(Norm(v))) <==> RoundTrips(v)
    decreases v
  {
    if RoundTrips(v) {
      RoundTripsSerializes(v);
    }
    if Serialize(v).Ok? {
      var bytes := Serialize(v).value;
      assert bytes + [] == bytes;
      match v
      case SSigmaProp(key) =>
        assert |bytes[1..]| > |key|;
      case SSome(inner) =>
        RoundTripIff(inner);
        OptionParse(Serialize(inner).value);
      case SPair(left, right) =>
        RoundTripIff(right);
        assert Serialize(right).value + [] == Serialize(right).value;
        PairIff(left, right, [], RoundTrips(right));
      case SNone =>
      case _ =>
        SimpleRead(v, []);
    }
  }

  lemma {:induction false} DelimitedSerializes(v: SValue)
    requires Delimited(v)
    ensures Serialize(v).Ok? && RoundTrips(v)
  {
    match v
    case SSome(inner) => DelimitedSerializes(inner);
    case SPair(left, right) =>
      if Simple(left) {
        DelimitedSerializes(right);
      } else {
        DelimitedSerializes(left.inner);
        SameNormSameBytes(left.inner, right);
      }
    case _ =>
  }

  lemma {:induction false} RoundTripsSerializes(v: SValue)
    requires RoundTrips(v)
    ensures Serialize(v).Ok?
  {
    match v
    case SSome(inner) => RoundTripsSerializes(inner);
    case SPair(left, right) =>
      if Simple(left) {
        RoundTripsSerializes(right);
      } else {
        DelimitedSerializes(left.inner);
        SameNormSameBytes(left.inner, right);
      }
    case _ =>
  }

  /** The documented family: nesting of options and of pairs with a simple left part, over
      values in range, always comes back. */
  predicate Nested(v: SValue) {
    match v
    case SSigmaProp(_) => false
    case SNone => true
    case SSome(inner) => Nested(inner)
    case SPair(left, right) => Simple(left) && InRange(left) && Nested(right)
    case _ => InRange(v)
  }

  lemma {:induction false} NestedRoundTrips(v: SValue)
    requires Nested(v)
    ensures Serialize(v).Ok? && Deserialize(Serialize(v).value) == Ok(Norm(v))
  {
    NestedIsCovered(v);
    RoundTripIff(v);
  }

  lemma {:induction false} NestedIsCovered(v: SValue)
    requires Nested(v)
    ensures RoundTrips(v)
  {
    match v
    case SSome(inner) => NestedIsCovered(inner);
    case SPair(_, right) => NestedIsCovered(right);
    case _ =>
  }

  /** No two nested values share an encoding, up to the Coll[SByte] reading. */
  lemma NestedInjective(v: SValue, w: SValue)
    requires Nested(v) && Nested(w) && Serialize(v) == Serialize(w)
    ensures Norm(v) == Norm(w)
  {
    NestedRoundTrips(v);
    NestedRoundTrips(w);
  }

  // ----- The bytes on the wire -----

  /** The tag of every form, in numbers. */
  lemma WireTags(v: SValue)
    requires Serialize(v).Ok?
    ensures
      var bytes := Serialize(v).value;
      match v
      case SInt(_) => bytes[0] == 2
      case SLong(_) => bytes[0] == 4
      case SCollByte(data) => bytes == [0x0e, 1] + EncodeVlq(|data|) + data
      case SCollSByte(data) => bytes == [0x0e, 1] + EncodeVlq(|data|) + data
      case SSigmaProp(key) => bytes == [8, 0xcd] + key && |key| == 33
      case SBoolean(b) => bytes == [if b then 7 else 6]
      case SNone => bytes == [0x0b]
      case SSome(inner) => Serialize(inner).Ok? && bytes == [0x0b] + Serialize(inner).value
      case SPair(left, right) =>
        Serialize(left).Ok? && Serialize(right).Ok?
        && bytes == [0x0d] + Serialize(left).value + Serialize(right).value
  {
  }

  /** A value cannot be serialized exactly if it holds a SigmaProp whose key is not 33 bytes. */
  lemma {:induction false} SerializableIff(v: SValue)
    ensures Serialize(v).Ok? <==> KeysComplete(v)
    ensures Serialize(v).Err? ==> Serialize(v) == Err(BadKeyLength)
  {
    match v
    case SSome(inner) => SerializableIff(inner);
    case SPair(left, right) =>
      SerializableIff(left);
      SerializableIff(right);
    case _ =>
  }

  predicate KeysComplete(v: SValue) {
    match v
    case SSigmaProp(key) => |key| == 33
    case SSome(inner) => KeysComplete(inner)
    case SPair(left, right) => KeysComplete(left) && KeysComplete(right)
    case _ => true
  }

  /** A SigmaProp comes back with its second byte in front of the key. */
  lemma SigmaPropReadsMore(key: seq<Byte>)
    requires |key| == 33
    ensures Serialize(SSigmaProp(key)).Ok?
    ensures Deserialize(Serialize(SSigmaProp(key)).value) == Ok(SSigmaProp([0xcd] + key))
  {
    var bytes := Serialize(SSigmaProp(key)).value;
    assert bytes[1..] == [PROVE_DLOG] + key;
  }

  /** No bytes and an unknown first byte are refused. */
  lemma UnknownFirstByte(bytes: seq<Byte>)
    requires bytes == [] || bytes[0] !in {2, 4, 6, 7, 8, 0x0b, 0x0d, 0x0e}
    ensures Deserialize(bytes) == Err(UnknownTag)
  {
  }

  // ----- Registers -----

  /** R4 to R9. */
  function RegisterCount(values: seq<SValue>): (n: nat)
    ensures n <= |values|
  {
    if |values| < 6 then |values| else 6
  }

  /** `serializeSValues`: at most six values, R4 to R9, stopping at the first failure. */
  function SerializeRegisters(values: seq<SValue>): Result<seq<seq<Byte>>, CodecError> {
    SerializeUpTo(values, RegisterCount(values))
  }

  function SerializeUpTo(values: seq<SValue>, n: nat): Result<seq<seq<Byte>>, CodecError>
    requires n <= |values|
  {
    if n == 0 then Ok([])
    else
      var init := SerializeUpTo(values, n - 1);
      if init.Err? then init
      else
        var last := Serialize(values[n - 1]);
        if last.Err? then Err(last.error) else Ok(init.value + [last.value])
  }

  lemma {:induction false} SerializeUpToAll(values: seq<SValue>, n: nat)
    requires n <= |values| && forall k :: 0 <= k < n ==> Serialize(values[k]).Ok?
    ensures SerializeUpTo(values, n).Ok?
  {
    if n > 0 {
      SerializeUpToAll(values, n - 1);
      assert Serialize(values[n - 1]).Ok?;
    }
  }

  lemma {:induction false} SerializeUpToAt(values: seq<SValue>, n: nat, k: nat)
    requires k < n <= |values| && SerializeUpTo(values, n).Ok?
    ensures |SerializeUpTo(values, n).value| == n
    ensures Serialize(values[k]) == Ok(SerializeUpTo(values, n).value[k])
    decreases n
  {
    SerializeUpToLength(values, n);
    if k < n - 1 {
      SerializeUpToLength(values, n - 1);
      SerializeUpToAt(values, n - 1, k);
    } else {
      SerializeUpToLength(values, n - 1);
    }
  }

  lemma {:induction false} SerializeUpToLength(values: seq<SValue>, n: nat)
    requires n <= |values| && SerializeUpTo(values, n).Ok?
    ensures |SerializeUpTo(values, n).value| == n
  {
    if n > 0 {
      SerializeUpToLength(values, n - 1);
    }
  }

  /** All or none of the first six values: register k holds the bytes of value k, and there
      is a result exactly if every one of them can be serialized. */
  lemma RegistersMeaning(values: seq<SValue>)
    ensures
      var r := SerializeRegisters(values);
      && (r.Ok? <==> forall k :: 0 <= k < |values| && k < 6 ==> Serialize(values[k]).Ok?)
      && (r.Ok? ==> |r.value| == if |values| <= 6 then |values| else 6)
      && (r.Ok? ==> forall k :: 0 <= k < |values| && k < 6 ==> Serialize(values[k]) == Ok(r.value[k]))
  {
    var n := RegisterCount(values);
    if SerializeUpTo(values, n).Ok? {
      SerializeUpToLength(values, n);
      forall k | 0 <= k < n
        ensures Serialize(values[k]) == Ok(SerializeUpTo(values, n).value[k])
      {
        SerializeUpToAt(values, n, k);
      }
    }
    if forall k :: 0 <= k < n ==> Serialize(values[k]).Ok? {
      SerializeUpToAll(values, n);
    }
  }

  lemma UpToStep(values: seq<SValue>, i: nat, result: seq<seq<Byte>>)
    requires i < |values| && SerializeUpTo(values, i) == Ok(result) && Serialize(values[i]).Ok?
    ensures SerializeUpTo(values, i + 1) == Ok(result + [Serialize(values[i]).value])
  {
  }

  method SerializeSValues(values: seq<SValue>) returns (registers: Result<seq<seq<Byte>>, CodecError>)
    ensures registers == SerializeRegisters(values)
  {
    var result := [];
    var n := RegisterCount(values);
    for i := 0 to n
      invariant SerializeUpTo(values, i) == Ok(result)
    {
      var r := Serialize(values[i]);
      if r.Err? {
        StopsAt(values, i, n);
        return Err(r.error);
      }
      UpToStep(values, i, result);
      result := result + [r.value];
    }
    return Ok(result);
  }

  lemma {:induction false} StopsAt(values: seq<SValue>, i: nat, n: nat)
    requires i < n <= |values| && SerializeUpTo(values, i).Ok? && Serialize(values[i]).Err?
    ensures SerializeUpTo(values, n) == Err(Serialize(values[i]).error)
    decreases n
  {
    if n > i + 1 {
      StopsAt(values, i, n - 1);
    }
  }
}
