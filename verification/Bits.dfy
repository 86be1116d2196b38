/** Bitwise operations as the three languages of the repository compute them: unbounded
    two's complement (Python integers, JavaScript BigInt) and 32-bit wrap-around
    (JavaScript numbers under `<<`, `>>`, `>>>`, `|` and `^`). */
module Bits {

  function Abs(x: int): (r: nat)
    ensures r == x || r == -x
  {
    if x < 0 then -x else x
  }

  /** `x << k` and `x >> k` one bit at a time; the right shift rounds down. */
  function Shl(x: int, k: nat): (r: int)
    ensures x >= 0 ==> r >= x
  {
    if k == 0 then x else 2 * Shl(x, k - 1)
  }

  function Shr(x: int, k: nat): (r: int)
    ensures x >= 0 <==> r >= 0
    decreases k
  {
    if k == 0 then x else Shr(x / 2, k - 1)
  }

  /** Exclusive or of two integers in unbounded two's complement. */
  function Xor(a: int, b: int): int
    decreases Abs(a) + Abs(b)
  {
    if (a == 0 || a == -1) && (b == 0 || b == -1) then
      if a == b then 0 else -1
    else
      2 * Xor(a / 2, b / 2) + (if a % 2 == b % 2 then 0 else 1)
  }

  /** Inclusive or of two non-negative integers. */
  function Or(a: nat, b: nat): nat
  {
    if a == 0 && b == 0 then 0
    else 2 * Or(a / 2, b / 2) + (if a % 2 == 1 || b % 2 == 1 then 1 else 0)
  }

  lemma {:induction false} XorZero(a: int)
    ensures Xor(a, 0) == a
    decreases Abs(a)
  {
    if a != 0 && a != -1 {
      XorZero(a / 2);
    }
  }

  lemma {:induction false} XorMinusOne(a: int)
    ensures Xor(a, -1) == -a - 1
    decreases Abs(a)
  {
    if a != 0 && a != -1 {
      XorMinusOne(a / 2);
    }
  }

  /** Only zero leaves every bit of `a` alone. */
  lemma {:induction false} XorUnchanged(a: int, b: int)
    ensures Xor(a, b) == a <==> b == 0
    decreases Abs(a) + Abs(b)
  {
    if !((a == 0 || a == -1) && (b == 0 || b == -1)) {
      XorUnchanged(a / 2, b / 2);
    }
  }

  /** Only -1 flips every bit of `a`. */
  lemma {:induction false} XorComplement(a: int, b: int)
    ensures Xor(a, b) == -a - 1 <==> b == -1
    decreases Abs(a) + Abs(b)
  {
    if !((a == 0 || a == -1) && (b == 0 || b == -1)) {
      XorComplement(a / 2, b / 2);
    }
  }

  /** Equal signs give a non-negative result. */
  lemma {:induction false} XorSign(a: int, b: int)
    ensures Xor(a, b) >= 0 <==> (a >= 0 <==> b >= 0)
    decreases Abs(a) + Abs(b)
  {
    if !((a == 0 || a == -1) && (b == 0 || b == -1)) {
      XorSign(a / 2, b / 2);
    }
  }

  lemma {:induction false} OrZero(b: nat)
    ensures Or(0, b) == b
  {
    if b != 0 {
      OrZero(b / 2);
    }
  }

  lemma {:induction false} ShlAdd(a: int, b: int, k: nat)
    ensures Shl(a + b, k) == Shl(a, k) + Shl(b, k)
  {
    if k > 0 {
      ShlAdd(a, b, k - 1);
    }
  }

  lemma {:induction false} ShlMonotone(a: int, b: int, k: nat)
    requires a <= b
    ensures Shl(a, k) <= Shl(b, k)
  {
    if k > 0 {
      ShlMonotone(a, b, k - 1);
    }
  }

  lemma {:induction false} ShlTwice(a: int, i: nat, j: nat)
    ensures Shl(Shl(a, i), j) == Shl(a, i + j)
  {
    if j > 0 {
      ShlTwice(a, i, j - 1);
      assert Shl(a, i + j) == 2 * Shl(a, i + (j - 1));
    }
  }

  lemma Shl7(x: int)
    ensures Shl(x, 7) == 128 * x
  {
    assert Shl(x, 1) == 2 * x && Shl(x, 2) == 4 * x && Shl(x, 3) == 8 * x;
    assert Shl(x, 4) == 16 * x && Shl(x, 5) == 32 * x && Shl(x, 6) == 64 * x;
  }

  lemma Shl14(x: int)
    ensures Shl(x, 14) == 0x4000 * x
  {
    Shl7(x);
    Shl7(128 * x);
    ShlTwice(x, 7, 7);
  }

  lemma Shl28(x: int)
    ensures Shl(x, 28) == 0x1000_0000 * x
  {
    Shl14(x);
    Shl14(0x4000 * x);
    ShlTwice(x, 14, 14);
  }

  /** Bits placed above `k` do not meet the bits below it, so `|=` adds. */
  lemma {:induction false} OrDisjoint(a: nat, c: nat, k: nat)
    requires a < Shl(1, k)
    ensures Or(a, Shl(c, k)) == a + Shl(c, k)
    decreases k
  {
    if k == 0 {
      OrZero(c);
    } else {
      OrDisjoint(a / 2, c, k - 1);
    }
  }

  // ----- 32-bit JavaScript numbers -----

  function U32(x: int): (u: nat)
    ensures u < 0x1_0000_0000
  {
    x % 0x1_0000_0000
  }

  /** ToInt32: the signed reading of the low 32 bits. */
  function ToInt32(x: int): (r: int)
    ensures -0x8000_0000 <= r < 0x8000_0000
    ensures -0x8000_0000 <= x < 0x8000_0000 ==> r == x
  {
    if U32(x) >= 0x8000_0000 then U32(x) - 0x1_0000_0000 else U32(x)
  }

  predicate IsInt32(x: int) {
    -0x8000_0000 <= x < 0x8000_0000
  }

  predicate IsInt64(x: int) {
    -0x8000_0000_0000_0000 <= x < 0x8000_0000_0000_0000
  }

  // A JavaScript number under bitwise operators is kept as its unsigned 32-bit pattern;
  // `ToInt32` gives its signed reading.

  function WordShl(a: nat, k: nat): (r: nat)
    ensures r < 0x1_0000_0000
  {
    U32(Shl(a, k % 32))
  }

  /** `>>>`; `>>` is `Shr` of the signed reading. */
  function WordShr(a: nat, k: nat): nat {
    Shr(a, k % 32)
  }

  lemma Shr7(x: int)
    ensures Shr(x, 7) == x / 128
  {
    assert Shr(x, 7) == Shr(x / 2 / 2, 5) == Shr(x / 2 / 2 / 2 / 2, 3);
    assert Shr(x / 16, 3) == Shr(x / 32, 2) == Shr(x / 64, 1) == x / 128;
  }

  lemma WordShrByConstant(v: nat)
    ensures WordShr(v, 7) == v / 128
    ensures WordShr(v, 1) == v / 2
  {
    Shr7(v);
    assert Shr(v, 1) == Shr(v / 2, 0);
  }

  lemma SmallPattern(x: int)
    requires 0 <= x < 0x1_0000_0000
    ensures U32(x) == x
  {
  }

  lemma SamePattern(x: int, y: int)
    requires U32(x) == U32(y)
    ensures ToInt32(x) == ToInt32(y)
  {
  }

  lemma U32OfInt32(x: int)
    ensures U32(ToInt32(x)) == U32(x)
  {
  }
}
