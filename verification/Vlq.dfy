/** Variable-length quantities: 7-bit groups, least significant first, the top bit of a
    byte set when more bytes follow. The loops of the five implementations are methods
    proved against `EncodeVlq` and `DecodeVlq`. */
module Vlq {
  import opened Bits
  import opened Arithmetic

  type Byte = b: int | 0 <= b < 256

  /** The value read and the number of bytes it took. */
  datatype Reading = Reading(value: nat, size: nat)

  function EncodeVlq(n: nat): (bytes: seq<Byte>)
    ensures |bytes| >= 1
  {
    if n < 128 then [n] else [128 + n % 128] + EncodeVlq(n / 128)
  }

  function DecodeVlq(buffer: seq<Byte>): (r: Reading)
    ensures r.size <= |buffer|
  {
    if buffer == [] then Reading(0, 0)
    else if buffer[0] < 128 then Reading(buffer[0], 1)
    else
      var rest := DecodeVlq(buffer[1..]);
      Reading(buffer[0] - 128 + 128 * rest.value, 1 + rest.size)
  }

  /** The encoding says where it ends: whatever follows it is not read. */
  lemma {:induction false} VlqDelimited(n: nat, suffix: seq<Byte>)
    ensures DecodeVlq(EncodeVlq(n) + suffix) == Reading(n, |EncodeVlq(n)|)
  {
    var bytes := EncodeVlq(n) + suffix;
    if n < 128 {
      assert bytes[0] == n;
    } else {
      VlqDelimited(n / 128, suffix);
      assert bytes[0] == 128 + n % 128;
      assert bytes[1..] == EncodeVlq(n / 128) + suffix;
    }
  }

  /** No other byte string of the same length or shorter decodes to a value in canonical form:
      a terminated group sequence is the encoding of its value unless its last group is zero. */
  lemma {:induction false} VlqCanonical(buffer: seq<Byte>)
    requires buffer != [] && DecodeVlq(buffer).size == |buffer| && buffer[|buffer| - 1] < 128
    ensures EncodeVlq(DecodeVlq(buffer).value) == buffer
            <==> (|buffer| == 1 || buffer[|buffer| - 1] != 0)
  {
    if buffer[0] >= 128 {
      var rest := buffer[1..];
      var r := DecodeVlq(rest);
      assert rest != [];
      VlqCanonical(rest);
      assert rest[|rest| - 1] == buffer[|buffer| - 1];
      var value := DecodeVlq(buffer).value;
      assert value % 128 == buffer[0] - 128 && value / 128 == r.value;
      if r.value == 0 {
        assert EncodeVlq(0) == [0] && EncodeVlq(value) == [value];
      } else {
        assert EncodeVlq(value) == [buffer[0]] + EncodeVlq(r.value);
        assert buffer == [buffer[0]] + rest;
        assert EncodeVlq(value)[1..] == EncodeVlq(r.value);
      }
    }
  }

  lemma {:induction false} VlqSizeBound(n: nat, k: nat)
    requires k > 0 && n < Shl(1, 7 * k)
    ensures |EncodeVlq(n)| <= k
    decreases k
  {
    Shl7(1);
    if n >= 128 {
      assert k > 1;
      Shl7(Shl(1, 7 * (k - 1)));
      ShlTwice(1, 7 * (k - 1), 7);
      assert 7 * (k - 1) + 7 == 7 * k;
      VlqSizeBound(n / 128, k - 1);
    }
  }

  // ----- The format, byte by byte -----

  function Pow128(k: nat): (p: nat)
    ensures p > 0
  {
    if k == 0 then 1 else 128 * Pow128(k - 1)
  }

  /** Byte i carries the i-th base-128 digit of the number in its low seven bits, and its top
      bit exactly if more bytes follow. */
  lemma {:induction false} VlqBytes(n: nat, i: nat)
    requires i < |EncodeVlq(n)|
    ensures EncodeVlq(n)[i] % 128 == n / Pow128(i) % 128
    ensures EncodeVlq(n)[i] >= 128 <==> i < |EncodeVlq(n)| - 1
    decreases i
  {
    if n >= 128 {
      assert EncodeVlq(n)[1..] == EncodeVlq(n / 128);
      if i > 0 {
        VlqBytes(n / 128, i - 1);
        DivDiv(n, Pow128(i - 1));
      }
    }
  }

  /** There are as many bytes as the number has base-128 digits, at least one. */
  lemma {:induction false} VlqLength(n: nat)
    ensures n < Pow128(|EncodeVlq(n)|)
    ensures |EncodeVlq(n)| > 1 ==> n >= Pow128(|EncodeVlq(n)| - 1)
  {
    if n >= 128 {
      VlqLength(n / 128);
    }
  }

  /** The number that a list of groups stands for, least significant first. */
  function GroupSum(bytes: seq<Byte>): nat {
    if bytes == [] then 0
    else GroupSum(bytes[..|bytes| - 1]) + bytes[|bytes| - 1] % 128 * Pow128(|bytes| - 1)
  }

  lemma GroupTimes(d: nat, k: nat)
    requires k > 0
    ensures d * Pow128(k) == 128 * (d * Pow128(k - 1))
  {
    var p := Pow128(k - 1);
    assert d * (128 * p) == 128 * (d * p);
  }

  lemma {:induction false} GroupSumFirst(bytes: seq<Byte>)
    requires bytes != []
    ensures GroupSum(bytes) == bytes[0] % 128 + 128 * GroupSum(bytes[1..])
    decreases |bytes|
  {
    var n := |bytes| - 1;
    if n == 0 {
      assert bytes[..0] == [] && bytes[1..] == [];
      assert Pow128(0) == 1;
    } else {
      var init, rest := bytes[..n], bytes[1..];
      GroupSumFirst(init);
      assert init[1..] == rest[..n - 1];
      GroupTimes(bytes[n] % 128, n);
    }
  }

  /** Decoding any bytes reads up to the first one without the top bit, or to the end, and
      gives what those groups stand for. */
  lemma {:induction false} DecodeVlqMeaning(buffer: seq<Byte>)
    ensures
      var r := DecodeVlq(buffer);
      && (forall i :: 0 <= i < r.size - 1 ==> buffer[i] >= 128)
      && (r.size < |buffer| ==> r.size > 0 && buffer[r.size - 1] < 128)
      && r.value == GroupSum(buffer[..r.size])
  {
    DecodeVlqSum(buffer);
    if buffer != [] && buffer[0] >= 128 {
      var rest := buffer[1..];
      DecodeVlqMeaning(rest);
      assert forall i :: 0 < i < |buffer| ==> buffer[i] == rest[i - 1];
    }
  }

  lemma {:induction false} DecodeVlqSum(buffer: seq<Byte>)
    ensures DecodeVlq(buffer).value == GroupSum(buffer[..DecodeVlq(buffer).size])
  {
    if buffer != [] {
      var size := DecodeVlq(buffer).size;
      var read := buffer[..size];
      GroupSumFirst(read);
      if buffer[0] < 128 {
        assert read[1..] == [];
      } else {
        DecodeVlqSum(buffer[1..]);
        assert read[1..] == buffer[1..][..size - 1];
      }
    }
  }

  lemma DivDiv(n: nat, p: nat)
    requires p > 0
    ensures n / (128 * p) == n / 128 / p
  {
    var q, r := n / (128 * p), n % (128 * p);
    assert n == q * (128 * p) + r;
    assert n / 128 == q * p + r / 128 by {
      assert n == 128 * (q * p) + r;
    }
    QuotientIs(n / 128, q, r / 128, p);
  }

  lemma QuotientIs(x: nat, q: nat, r: nat, p: nat)
    requires x == q * p + r && r < p
    ensures x / p == q
  {
    DivModUnique(x, q, r, p);
  }

  // ----- The loops -----

  lemma PeelGroup(bytes: seq<Byte>, current: nat)
    ensures current >= 128 ==> bytes + [128 + current % 128] + EncodeVlq(current / 128) == bytes + EncodeVlq(current)
    ensures current < 128 ==> bytes + [current] == bytes + EncodeVlq(current)
  {
    if current >= 128 {
      assert EncodeVlq(current) == [128 + current % 128] + EncodeVlq(current / 128);
    }
  }

  /** SDK, backend, LP backend and frontend (BigInt) encoders: a zero test, then a loop. */
  method EncodeLoop(value: nat) returns (bytes: seq<Byte>)
    ensures bytes == EncodeVlq(value)
  {
    bytes := [];
    if value == 0 {
      bytes := [0];
    }
    var remaining: nat := value;
    while remaining > 0
      invariant remaining > 0 ==> bytes + EncodeVlq(remaining) == EncodeVlq(value)
      invariant remaining == 0 ==> bytes == EncodeVlq(value)
    {
      PeelGroup(bytes, remaining);
      var byte := remaining % 128;
      remaining := remaining / 128;
      if remaining > 0 {
        byte := byte + 128;
      }
      bytes := bytes + [byte];
    }
  }

  /** Frontend encoder on a 32-bit number: a do-while with `>>>`, so a negative number is
      encoded as its unsigned pattern. */
  method EncodeLoop32(value: int) returns (bytes: seq<Byte>)
    ensures bytes == EncodeVlq(U32(value))
  {
    bytes := [];
    var v := U32(value);
    var more := true;
    while more
      invariant more ==> bytes + EncodeVlq(v) == EncodeVlq(U32(value))
      invariant !more ==> bytes == EncodeVlq(U32(value))
      decreases more, v
    {
      PeelGroup(bytes, v);
      WordShrByConstant(v);
      var byte := v % 128;
      v := WordShr(v, 7);
      if v > 0 {
        byte := byte + 128;
      }
      bytes := bytes + [byte];
      more := v > 0;
    }
  }

  /** One step of `value |= (byte & 0x7f) << shift` while `value` lies below the new group. */
  lemma AddGroup(value: nat, group: nat, shift: nat)
    requires value < Shl(1, shift) && group < 128
    ensures Or(value, Shl(group, shift)) == value + Shl(group, shift) < Shl(1, shift + 7)
  {
    OrDisjoint(value, group, shift);
    ShlAdd(group, 1, shift);
    ShlMonotone(group + 1, 128, shift);
    Shl7(1);
    ShlTwice(1, 7, shift);
  }

  lemma GroupThenRest(group: nat, later: nat, shift: nat)
    ensures Shl(group + 128 * later, shift) == Shl(group, shift) + Shl(later, shift + 7)
  {
    ShlAdd(group, 128 * later, shift);
    Shl7(later);
    ShlTwice(later, 7, shift);
  }

  lemma DecodeTurn(buffer: seq<Byte>, next: nat)
    requires next < |buffer|
    ensures
      var here, later := DecodeVlq(buffer[next..]), DecodeVlq(buffer[next + 1..]);
      if buffer[next] < 128 then here == Reading(buffer[next] % 128, 1)
      else here == Reading(buffer[next] % 128 + 128 * later.value, 1 + later.size)
  {
    assert buffer[next..][1..] == buffer[next + 1..];
  }

  /** One turn of a decoding loop, as the decoder function sees it. */
  lemma ReadGroup(buffer: seq<Byte>, next: nat, value: nat, shift: nat)
    requires next < |buffer| && value < Shl(1, shift)
    ensures
      var here, later := DecodeVlq(buffer[next..]), DecodeVlq(buffer[next + 1..]);
      var value' := Or(value, Shl(buffer[next] % 128, shift));
      && value' < Shl(1, shift + 7)
      && (if buffer[next] < 128 then
            value' == value + Shl(here.value, shift) && here.size == 1
          else
            value' + Shl(later.value, shift + 7) == value + Shl(here.value, shift)
            && here.size == 1 + later.size)
  {
    DecodeTurn(buffer, next);
    AddGroup(value, buffer[next] % 128, shift);
    GroupThenRest(buffer[next] % 128, DecodeVlq(buffer[next + 1..]).value, shift);
  }

  lemma ShlOfZero(k: nat)
    ensures Shl(0, k) == 0
  {
    ShlAdd(0, 0, k);
  }

  /** SDK decoder: starts at an offset and reports where it stopped. */
  method DecodeLoop(buffer: seq<Byte>, offset: nat) returns (value: nat, next: nat)
    ensures next >= offset
    ensures offset <= |buffer| ==>
              DecodeVlq(buffer[offset..]) == Reading(value, next - offset)
    ensures offset > |buffer| ==> value == 0 && next == offset
  {
    value, next := 0, offset;
    if offset > |buffer| {
      return;
    }
    var shift := 0;
    var more := true;
    ghost var whole := DecodeVlq(buffer[offset..]);
    while more && next < |buffer|
      invariant offset <= next <= |buffer|
      invariant value < Shl(1, shift)
      invariant more ==> whole.value == value + Shl(DecodeVlq(buffer[next..]).value, shift)
                         && whole.size == next - offset + DecodeVlq(buffer[next..]).size
      invariant !more ==> whole == Reading(value, next - offset)
      decreases |buffer| - next
    {
      var byte := buffer[next];
      ReadGroup(buffer, next, value, shift);
      value := Or(value, Shl(byte % 128, shift));
      more := byte >= 128;
      next := next + 1;
      shift := shift + 7;
    }
    ShlOfZero(shift);
  }

  /** Backend, LP backend and SDK pool manager (Long): a loop over the bytes after the tag
      that breaks at the first byte without the top bit. */
  method ScanLoop(buffer: seq<Byte>, start: nat) returns (value: nat)
    requires start <= |buffer|
    ensures value == DecodeVlq(buffer[start..]).value
  {
    value := 0;
    var shift := 0;
    var i := start;
    while i < |buffer|
      invariant start <= i <= |buffer|
      invariant value < Shl(1, shift)
      invariant DecodeVlq(buffer[start..]).value == value + Shl(DecodeVlq(buffer[i..]).value, shift)
    {
      var byte := buffer[i];
      ReadGroup(buffer, i, value, shift);
      value := Or(value, Shl(byte % 128, shift));
      if byte < 128 {
        return;
      }
      shift := shift + 7;
      i := i + 1;
    }
    ShlOfZero(shift);
  }

  // ----- 32-bit decoding -----

  /** What the 32-bit loops compute on any bytes, as an unsigned pattern: `<<` drops the
      bits above 32 and takes the shift count modulo 32. */
  function Fold32(buffer: seq<Byte>, shift: nat, value: nat): nat
    decreases |buffer|
  {
    if buffer == [] then value
    else
      var next := Or(value, WordShl(buffer[0] % 128, shift));
      if buffer[0] < 128 then next else Fold32(buffer[1..], shift + 7, next)
  }

  /** Frontend `decodeInt` / `decodeCollByte` and SDK pool manager (Int). */
  method DecodeLoop32(buffer: seq<Byte>, offset: nat) returns (value: nat, next: nat)
    requires offset <= |buffer|
    ensures value == Fold32(buffer[offset..], 0, 0)
    ensures next == offset + DecodeVlq(buffer[offset..]).size
  {
    value, next := 0, offset;
    var shift := 0;
    while next < |buffer|
      invariant offset <= next <= |buffer|
      invariant Fold32(buffer[offset..], 0, 0) == Fold32(buffer[next..], shift, value)
      invariant offset + DecodeVlq(buffer[offset..]).size == next + DecodeVlq(buffer[next..]).size
    {
      var byte := buffer[next];
      assert buffer[next..][1..] == buffer[next + 1..];
      next := next + 1;
      value := Or(value, WordShl(byte % 128, shift));
      if byte < 128 {
        return;
      }
      shift := shift + 7;
    }
  }

  lemma WordBounds(i: nat)
    requires i <= 4
    ensures Shl(1, 7 * i) <= 0x1000_0000
  {
    Shl28(1);
    ShlMonotone(1, Shl(1, 7 * (4 - i)), 7 * i);
    ShlTwice(1, 7 * (4 - i), 7 * i);
    assert 7 * (4 - i) + 7 * i == 28;
  }

  lemma StepBelow(value: nat, group: nat, i: nat)
    requires i < 4 && value < Shl(1, 7 * i) && group < 128
    ensures Or(value, WordShl(group, 7 * i)) == value + Shl(group, 7 * i) < Shl(1, 7 * (i + 1))
  {
    assert 7 * (i + 1) == 7 * i + 7 && 7 * i % 32 == 7 * i;
    AddGroup(value, group, 7 * i);
    WordBounds(i + 1);
    SmallPattern(Shl(group, 7 * i));
  }

  /** The fifth group keeps its low four bits. */
  lemma TopPattern(value: nat, group: nat)
    requires value < 0x1000_0000 && group < 128
    ensures U32(value + 0x1000_0000 * group) == value + 0x1000_0000 * (group % 16)
  {
    var high := group / 16;
    assert group == group % 16 + 16 * high;
    assert value + 0x1000_0000 * group == value + 0x1000_0000 * (group % 16) + 0x1_0000_0000 * high;
  }

  lemma TopWord(group: nat)
    requires group < 128
    ensures WordShl(group, 28) == 0x1000_0000 * (group % 16)
  {
    Shl28(group);
    TopPattern(0, group);
  }

  lemma TopOr(value: nat, low: nat)
    requires value < 0x1000_0000
    ensures Or(value, 0x1000_0000 * low) == value + 0x1000_0000 * low
  {
    Shl28(1);
    Shl28(low);
    OrDisjoint(value, low, 28);
  }

  lemma StepTop(value: nat, group: nat)
    requires value < 0x1000_0000 && group < 128
    ensures Or(value, WordShl(group, 28)) == U32(value + Shl(group, 28))
  {
    TopWord(group);
    TopOr(value, group % 16);
    Shl28(group);
    TopPattern(value, group);
  }

  /** Nothing is read behind a last group, whether or not its top bit is set. */
  lemma Fold32Last(buffer: seq<Byte>, shift: nat, value: nat)
    requires buffer != [] && DecodeVlq(buffer).size <= 1
    ensures Fold32(buffer, shift, value) == Or(value, WordShl(buffer[0] % 128, shift))
    ensures DecodeVlq(buffer).value == buffer[0] % 128
  {
    if buffer[0] >= 128 {
      assert buffer[1..] == [];
    }
  }

  lemma Fold32Top(buffer: seq<Byte>, value: nat, i: nat)
    requires DecodeVlq(buffer).size <= 1 && buffer != [] && i == 4 && value < 0x1000_0000
    ensures Fold32(buffer, 7 * i, value) == U32(value + Shl(DecodeVlq(buffer).value, 7 * i))
  {
    Fold32Last(buffer, 7 * i, value);
    StepTop(value, buffer[0] % 128);
  }

  lemma Fold32Stops(buffer: seq<Byte>, value: nat, i: nat)
    requires buffer != [] && buffer[0] < 128 && i < 4 && value < Shl(1, 7 * i)
    ensures Fold32(buffer, 7 * i, value) == value + Shl(DecodeVlq(buffer).value, 7 * i) < Shl(1, 7 * (i + 1))
  {
    var group := buffer[0] % 128;
    assert group == buffer[0] == DecodeVlq(buffer).value;
    StepBelow(value, group, i);
    assert Fold32(buffer, 7 * i, value) == Or(value, WordShl(group, 7 * i));
  }

  lemma Fold32Continues(buffer: seq<Byte>, value: nat, i: nat)
    requires buffer != [] && buffer[0] >= 128 && i < 4 && value < Shl(1, 7 * i)
    ensures
      var next := value + Shl(buffer[0] - 128, 7 * i);
      && next < Shl(1, 7 * (i + 1))
      && Fold32(buffer, 7 * i, value) == Fold32(buffer[1..], 7 * (i + 1), next)
  {
    var group := buffer[0] % 128;
    assert group == buffer[0] - 128 && 7 * (i + 1) == 7 * i + 7;
    StepBelow(value, group, i);
    assert Fold32(buffer, 7 * i, value) == Fold32(buffer[1..], 7 * i + 7, Or(value, WordShl(group, 7 * i)));
  }

  lemma TotalContinues(buffer: seq<Byte>, i: nat)
    requires buffer != [] && buffer[0] >= 128
    ensures Shl(DecodeVlq(buffer).value, 7 * i)
            == Shl(buffer[0] - 128, 7 * i) + Shl(DecodeVlq(buffer[1..]).value, 7 * (i + 1))
  {
    GroupThenRest(buffer[0] - 128, DecodeVlq(buffer[1..]).value, 7 * i);
    assert 7 * (i + 1) == 7 * i + 7;
  }

  lemma Fold32Empty(value: nat, i: nat)
    requires i <= 4 && value < Shl(1, 7 * i)
    ensures Fold32([], 7 * i, value) == U32(value + Shl(DecodeVlq([]).value, 7 * i))
  {
    WordBounds(i);
    ShlOfZero(7 * i);
    SmallPattern(value);
  }

  lemma Fold32Fifth(buffer: seq<Byte>, value: nat, i: nat)
    requires DecodeVlq(buffer).size <= 1 && buffer != [] && i == 4 && value < Shl(1, 7 * i)
    ensures Fold32(buffer, 7 * i, value) == U32(value + Shl(DecodeVlq(buffer).value, 7 * i))
  {
    WordBounds(i);
    Fold32Top(buffer, value, i);
  }

  lemma Fold32Ends(buffer: seq<Byte>, value: nat, i: nat)
    requires buffer != [] && buffer[0] < 128 && i < 4 && value < Shl(1, 7 * i)
    ensures Fold32(buffer, 7 * i, value) == U32(value + Shl(DecodeVlq(buffer).value, 7 * i))
  {
    Fold32Stops(buffer, value, i);
    WordBounds(i + 1);
    SmallPattern(value + Shl(DecodeVlq(buffer).value, 7 * i));
  }

  /** At most five bytes: the 32-bit loops give the low 32 bits of the value. */
  lemma {:induction false} Fold32IsLowWord(buffer: seq<Byte>, i: nat, value: nat)
    requires i + DecodeVlq(buffer).size <= 5 && i <= 4 && value < Shl(1, 7 * i)
    ensures Fold32(buffer, 7 * i, value) == U32(value + Shl(DecodeVlq(buffer).value, 7 * i))
    decreases |buffer|
  {
    if buffer == [] {
      Fold32Empty(value, i);
    } else if i == 4 {
      Fold32Fifth(buffer, value, i);
    } else if buffer[0] < 128 {
      Fold32Ends(buffer, value, i);
    } else {
      Fold32Continues(buffer, value, i);
      TotalContinues(buffer, i);
      assert DecodeVlq(buffer).size == 1 + DecodeVlq(buffer[1..]).size;
      Fold32IsLowWord(buffer[1..], i + 1, value + Shl(buffer[0] - 128, 7 * i));
    }
  }

  lemma Decode32IsLowWord(buffer: seq<Byte>)
    requires DecodeVlq(buffer).size <= 5
    ensures Fold32(buffer, 0, 0) == U32(DecodeVlq(buffer).value)
  {
    Fold32IsLowWord(buffer, 0, 0);
    assert 7 * 0 == 0;
  }
}
