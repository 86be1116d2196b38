/** The LP backend computes shares with Python's `decimal`: 50 significant digits, every
    operation rounded down, and the fraction dropped at the end. The SDK divides integers.
    A decimal is its coefficient times a power of ten. */
module DecimalPath {
  import opened Arithmetic
  import opened PoolMath

  /** 10^50: the first integer with more digits than the context keeps. */
  const LIMIT: nat := 1_00000_00000_00000_00000_00000_00000_00000_00000_00000_00000

  datatype Decimal = Decimal(coefficient: nat, exponent: int)

  /** How many digits of num / den must be dropped to keep 50. */
  function DigitsOver(num: nat, den: nat): nat
    requires den > 0
    decreases num - den
  {
    if num < den * LIMIT then 0
    else 1 + DigitsOver(num, 10 * den)
  }

  /** How many fractional digits of num / den there is room for. */
  function DigitsUnder(num: nat, den: nat): nat
    requires 0 < num && den > 0
    decreases den * LIMIT - num
  {
    if 10 * num >= den * LIMIT then 0
    else 1 + DigitsUnder(10 * num, den)
  }

  /** num / den rounded down to 50 significant digits. */
  function Quotient(num: nat, den: nat): Decimal
    requires den > 0
  {
    if num == 0 then Decimal(0, 0)
    else if num < den * LIMIT then
      var k := DigitsUnder(num, den);
      Decimal(FloorDiv(num * Pow10(k), den), 0 - k)
    else
      var k := DigitsOver(num, den);
      Decimal(FloorDiv(num, den * Pow10(k)), k)
  }

  /** A product is exact while it has at most 50 digits. */
  function Product(a: nat, b: nat): Decimal {
    if a * b < LIMIT then Decimal(a * b, 0) else Quotient(a * b, 1)
  }

  /** `int(d.to_integral_value(rounding=ROUND_DOWN))` */
  function DropFraction(d: Decimal): nat {
    if d.exponent >= 0 then d.coefficient * Pow10(d.exponent)
    else FloorDiv(d.coefficient, Pow10(0 - d.exponent))
  }

  function Divide(d: Decimal, den: nat): Decimal
    requires den > 0
  {
    if d.exponent >= 0 then Quotient(d.coefficient * Pow10(d.exponent), den)
    else Quotient(d.coefficient, den * Pow10(0 - d.exponent))
  }

  /** `int(((Decimal(a) * Decimal(b)) / Decimal(c)).to_integral_value(ROUND_DOWN))` */
  function MulDiv(a: nat, b: nat, c: nat): nat
    requires c > 0
  {
    DropFraction(Divide(Product(a, b), c))
  }

  function LpDepositShares(deposit: nat, value: nat, supply: nat): nat {
    if supply == 0 || value == 0 then deposit else MulDiv(deposit, supply, value)
  }

  function LpWithdrawErg(burn: nat, value: nat, supply: nat): nat {
    if supply == 0 then 0 else MulDiv(burn, value, supply)
  }

  function LpSharesForErg(desired: nat, value: nat, supply: nat): nat {
    if value == 0 || supply == 0 then 0 else MulDiv(desired, supply, value)
  }

  function LpPrice(value: nat, supply: nat, precision: nat): nat {
    if supply == 0 || value == 0 then precision else MulDiv(value, precision, supply)
  }

  // ----- Fifty digits -----

  lemma {:induction false} DigitsOverMeaning(num: nat, den: nat)
    requires den > 0
    ensures num < den * Pow10(DigitsOver(num, den)) * LIMIT
    ensures num >= den * LIMIT ==> den * Pow10(DigitsOver(num, den)) * LIMIT <= 10 * num
    decreases num - den
  {
    if num < den * LIMIT {
      assert den * Pow10(0) == den;
    } else {
      var p := Pow10(DigitsOver(num, 10 * den));
      DigitsOverMeaning(num, 10 * den);
      assert den * (10 * p) == 10 * den * p;
      if num < 10 * den * LIMIT {
        assert p == 1;
      }
    }
  }

  lemma {:induction false} DigitsUnderMeaning(num: nat, den: nat)
    requires 0 < num < den * LIMIT && den > 0
    ensures num * Pow10(DigitsUnder(num, den)) < den * LIMIT <= 10 * (num * Pow10(DigitsUnder(num, den)))
    decreases den * LIMIT - num
  {
    if 10 * num >= den * LIMIT {
      assert num * Pow10(0) == num;
    } else {
      var p := Pow10(DigitsUnder(10 * num, den));
      DigitsUnderMeaning(10 * num, den);
      assert num * (10 * p) == 10 * num * p;
    }
  }

  /** A floor of a ratio between 10^49 and 10^50 has exactly 50 digits. */
  lemma FiftyDigits(a: nat, b: nat)
    requires b > 0 && a < b * LIMIT <= 10 * a
    ensures LIMIT / 10 <= FloorDiv(a, b) < LIMIT
    ensures FloorDiv(a, b) * b <= a < (FloorDiv(a, b) + 1) * b
  {
    var tenth: nat := LIMIT / 10;
    assert LIMIT == 10 * tenth;
    assert b * (10 * tenth) == 10 * (tenth * b);
    FloorLargest(tenth, a, b);
    Floor(a, b);
    OneMore(FloorDiv(a, b), b);
    if FloorDiv(a, b) >= LIMIT {
      Scale(LIMIT, FloorDiv(a, b), b);
    }
  }

  /** A quotient is the ratio rounded down to exactly 50 significant digits. */
  lemma QuotientMeaning(num: nat, den: nat)
    requires num > 0 && den > 0
    ensures
      var q := Quotient(num, den);
      && LIMIT / 10 <= q.coefficient < LIMIT
      && (if q.exponent >= 0 then
            var unit := den * Pow10(q.exponent);
            q.coefficient * unit <= num < (q.coefficient + 1) * unit
          else
            q.coefficient * den <= num * Pow10(0 - q.exponent) < (q.coefficient + 1) * den)
  {
    if num < den * LIMIT {
      var k := DigitsUnder(num, den);
      DigitsUnderMeaning(num, den);
      FiftyDigits(num * Pow10(k), den);
      if k == 0 {
        assert Pow10(0) == 1;
        assert den * Pow10(0) == den && num * Pow10(0) == num;
      }
    } else {
      DigitsOverMeaning(num, den);
      FiftyDigits(num, den * Pow10(DigitsOver(num, den)));
    }
  }

  /** A product is exact, or rounded down to 50 digits; dropping the fraction rounds a decimal
      down to an integer. */
  lemma ProductMeaning(a: nat, b: nat)
    ensures a * b < LIMIT ==> Product(a, b) == Decimal(a * b, 0)
    ensures a * b >= LIMIT ==> Product(a, b) == Quotient(a * b, 1)
  {
  }

  lemma DropFractionMeaning(d: Decimal)
    ensures d.exponent >= 0 ==> DropFraction(d) == d.coefficient * Pow10(d.exponent)
    ensures d.exponent < 0 ==>
              var p := Pow10(0 - d.exponent);
              DropFraction(d) * p <= d.coefficient < (DropFraction(d) + 1) * p
  {
    if d.exponent < 0 {
      Floor(d.coefficient, Pow10(0 - d.exponent));
      OneMore(DropFraction(d), Pow10(0 - d.exponent));
    }
  }

  // ----- Agreement -----

  lemma NestedAtMost(num: nat, den: nat, p: nat, r: nat)
    requires den > 0 && p > 0 && r * den <= num * p
    ensures r / p <= num / den
  {
    var t := r / p;
    Floor(r, p);
    Scale(t * p, r, den);
    assert t * den * p == t * p * den;
    Cancel(t * den, num, p);
    FloorLargest(t, num, den);
  }

  lemma NestedAtLeast(num: nat, den: nat, p: nat)
    requires den > 0 && p > 0
    ensures num / den <= num * p / den / p
  {
    var q := num / den;
    Floor(num, den);
    Scale(q * den, num, p);
    assert q * p * den == q * den * p;
    FloorLargest(q * p, num * p, den);
    FloorLargest(q, num * p / den, p);
  }

  /** Dropping the fraction of a quotient kept to k digits is integer division. */
  lemma NestedFloor(num: nat, den: nat, p: nat)
    requires den > 0 && p > 0
    ensures num * p / den / p == num / den
  {
    Floor(num * p, den);
    NestedAtMost(num, den, p, num * p / den);
    NestedAtLeast(num, den, p);
  }

  /** A quotient short enough for the context loses nothing above the point. */
  lemma QuotientFloor(num: nat, den: nat)
    requires den > 0 && num < den * LIMIT
    ensures DropFraction(Quotient(num, den)) == num / den
  {
    if num > 0 {
      var k := DigitsUnder(num, den);
      NestedFloor(num, den, Pow10(k));
      if k == 0 {
        assert Pow10(0) == 1;
      }
    }
  }

  /** What rounding the product to 50 digits drops, and what it keeps. */
  function Lost(n: nat): (r: nat)
    ensures r <= n
  {
    if n < LIMIT then 0 else Remainder(n, Pow10(DigitsOver(n, 1)))
  }

  function Kept(n: nat): nat {
    n - Lost(n)
  }

  /** When nothing that matters is dropped: the product loses no more than the remainder of
      the division, and the digits of the quotient beyond the fiftieth are zeros. */
  predicate Exact(a: nat, b: nat, c: nat)
    requires c > 0
  {
    && Lost(a * b) <= Remainder(a * b, c)
    && (Kept(a * b) < c * LIMIT || FloorDiv(a * b, c) % Pow10(DigitsOver(Kept(a * b), c)) == 0)
  }

  /** The product as it enters the division. */
  lemma ProductKept(a: nat, b: nat)
    ensures Product(a, b).exponent >= 0
    ensures Product(a, b).coefficient * Pow10(Product(a, b).exponent) == Kept(a * b)
  {
    var n := a * b;
    if n < LIMIT {
      assert Pow10(0) == 1;
    } else {
      var p := Pow10(DigitsOver(n, 1));
      assert 1 * p == p;
      SplitExactly(n, p);
    }
  }

  lemma MulDivKept(a: nat, b: nat, c: nat)
    requires c > 0
    ensures MulDiv(a, b, c) == DropFraction(Quotient(Kept(a * b), c))
  {
    ProductKept(a, b);
  }

  /** A quotient too long for the context keeps its leading digits. */
  lemma QuotientLeading(num: nat, den: nat)
    requires den > 0 && num >= den * LIMIT
    ensures DropFraction(Quotient(num, den))
            == FloorDiv(FloorDiv(num, den), Pow10(DigitsOver(num, den))) * Pow10(DigitsOver(num, den))
  {
    DivTwice(num, den, Pow10(DigitsOver(num, den)));
  }

  lemma DivTwice(n: nat, a: nat, b: nat)
    requires a > 0 && b > 0 && a * b > 0
    ensures FloorDiv(n, a * b) == FloorDiv(FloorDiv(n, a), b)
  {
    DivTwiceAtMost(n, a, b);
    DivTwiceAtLeast(n, a, b);
  }

  lemma DivTwiceAtMost(n: nat, a: nat, b: nat)
    requires a > 0 && b > 0 && a * b > 0
    ensures FloorDiv(n, a * b) <= FloorDiv(FloorDiv(n, a), b)
  {
    var x := FloorDiv(n, a * b);
    assert x * (a * b) == x * b * a;
    FloorLargest(x * b, n, a);
    FloorLargest(x, FloorDiv(n, a), b);
  }

  lemma DivTwiceAtLeast(n: nat, a: nat, b: nat)
    requires a > 0 && b > 0 && a * b > 0
    ensures FloorDiv(FloorDiv(n, a), b) <= FloorDiv(n, a * b)
  {
    var y := FloorDiv(FloorDiv(n, a), b);
    assert y * (a * b) == y * b * a;
    Scale(y * b, FloorDiv(n, a), a);
    FloorLargest(y, n, a * b);
  }

  /** Dropping part of the dividend keeps the quotient exactly while the part is within
      the remainder. */
  lemma SmallerDividend(n: nat, lost: nat, c: nat)
    requires c > 0 && lost <= n
    ensures FloorDiv(n - lost, c) <= FloorDiv(n, c)
    ensures FloorDiv(n - lost, c) == FloorDiv(n, c) <==> lost <= Remainder(n, c)
  {
    var q, r := FloorDiv(n, c), Remainder(n, c);
    SplitExactly(n, c);
    FloorLargest(FloorDiv(n - lost, c), n, c);
    if lost <= r {
      FloorLargest(q, n - lost, c);
    }
  }

  lemma LeadingIff(q: nat, p: nat)
    requires p > 0
    ensures FloorDiv(q, p) * p <= q
    ensures FloorDiv(q, p) * p == q <==> q % p == 0
  {
    SplitExactly(q, p);
  }

  /** The Decimal path is integer division exactly when nothing that matters is dropped. */
  lemma MulDivExactIff(a: nat, b: nat, c: nat)
    requires c > 0
    ensures MulDiv(a, b, c) == a * b / c <==> Exact(a, b, c)
  {
    var n := a * b;
    var kept := Kept(n);
    MulDivKept(a, b, c);
    SmallerDividend(n, Lost(n), c);
    if kept < c * LIMIT {
      QuotientFloor(kept, c);
    } else {
      QuotientLeading(kept, c);
      LeadingIff(FloorDiv(kept, c), Pow10(DigitsOver(kept, c)));
    }
  }

  /** Whatever the size, rounding down never gives more than integer division. */
  lemma MulDivNeverExceeds(a: nat, b: nat, c: nat)
    requires c > 0
    ensures MulDiv(a, b, c) <= a * b / c
  {
    var n := a * b;
    var kept := Kept(n);
    MulDivKept(a, b, c);
    SmallerDividend(n, Lost(n), c);
    if kept < c * LIMIT {
      QuotientFloor(kept, c);
    } else {
      QuotientLeading(kept, c);
      LeadingIff(FloorDiv(kept, c), Pow10(DigitsOver(kept, c)));
    }
  }

  /** In particular whenever the product has at most 50 digits. */
  lemma MulDivExact(a: nat, b: nat, c: nat)
    requires c > 0 && a * b < LIMIT
    ensures MulDiv(a, b, c) == a * b / c
  {
    Scale(1, c, LIMIT);
    MulDivExactIff(a, b, c);
  }

  /** Backend and SDK mint the same shares for a deposit, and pay the same ERG for a burn,
      exactly when that holds of the calculator's product. */
  lemma SharesAgreeIff(deposit: nat, value: nat, supply: nat)
    ensures LpDepositShares(deposit, value, supply) == DepositShares(deposit, value, supply)
            <==> supply == 0 || value == 0 || Exact(deposit, supply, value)
  {
    if value > 0 {
      MulDivExactIff(deposit, supply, value);
    }
  }

  lemma ErgAgreesIff(burn: nat, value: nat, supply: nat)
    ensures LpWithdrawErg(burn, value, supply) == WithdrawErg(burn, value, supply)
            <==> supply == 0 || Exact(burn, value, supply)
  {
    if supply > 0 {
      MulDivExactIff(burn, value, supply);
    }
  }

  /** The two prices agree without shares, or with value where that holds of their product;
      never on a worthless pool with shares, where the SDK quotes zero and the backend the
      first-deposit price. */
  lemma PricesAgreeIff(value: nat, supply: nat, precision: nat)
    requires precision > 0
    ensures SdkPrice(value, supply, precision) == LpPrice(value, supply, precision)
            <==> supply == 0 || (value > 0 && Exact(value, precision, supply))
  {
    if supply > 0 && value > 0 {
      MulDivExactIff(value, precision, supply);
    } else if supply > 0 {
      assert SdkPrice(value, supply, precision) == 0;
    }
  }

  /** They can differ: an estimate of 10^50 + 1 nanoERG, for a pool of 10.000000001 ERG and
      one share, is one share short. */
  lemma SharesDiffer()
    ensures LpDepositShares(LIMIT + 1, 10_000_000_001, 1) == DepositShares(LIMIT + 1, 10_000_000_001, 1) - 1
  {
    var n := LIMIT + 1;
    assert n * 1 == n;
    assert DigitsOver(n, 10) == 0 && DigitsOver(n, 1) == 1 && Pow10(1) == 10;
    assert Lost(n) == 1;
    MulDivKept(n, 1, 10_000_000_001);
    QuotientFloor(LIMIT, 10_000_000_001);
  }

  /** Every amount that fits a Long register is far below the limit: for such amounts all
      four calculators of the backend are plain integer division. */
  lemma LongAmountsAgree(amount: nat, value: nat, supply: nat)
    requires amount < 0x8000_0000_0000_0000
    requires value < 0x8000_0000_0000_0000 && supply < 0x8000_0000_0000_0000
    ensures LpDepositShares(amount, value, supply) == DepositShares(amount, value, supply)
    ensures LpWithdrawErg(amount, value, supply) == WithdrawErg(amount, value, supply)
    ensures LpSharesForErg(amount, value, supply) == SharesForErg(amount, value, supply)
    ensures value > 0 ==> LpPrice(value, supply, amount) == SdkPrice(value, supply, amount)
  {
    LongProduct(amount, supply);
    LongProduct(amount, value);
    LongProduct(value, amount);
    if supply > 0 {
      MulDivExact(amount, value, supply);
      MulDivExact(value, amount, supply);
      if value > 0 {
        MulDivExact(amount, supply, value);
      }
    }
  }

  lemma LongProduct(a: nat, b: nat)
    requires a < 0x8000_0000_0000_0000 && b < 0x8000_0000_0000_0000
    ensures a * b < LIMIT
  {
    Scale(a, 0x8000_0000_0000_0000, b);
  }
}
