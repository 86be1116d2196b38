/** Share arithmetic of the liquidity pool. Values are nanoERG, supplies LP tokens; both are
    non-negative, so truncation and flooring agree. */
module PoolMath {
  import opened Arithmetic

  // ----- Calculators -----

  function DepositShares(deposit: nat, value: nat, supply: nat): nat {
    if supply == 0 || value == 0 then deposit else deposit * supply / value
  }

  function WithdrawErg(burn: nat, value: nat, supply: nat): nat {
    if supply == 0 then 0 else burn * value / supply
  }

  function SharesForErg(desired: nat, value: nat, supply: nat): nat {
    if value == 0 || supply == 0 then 0 else desired * supply / value
  }

  function SdkPrice(value: nat, supply: nat, precision: nat): nat {
    if supply == 0 then precision else value * precision / supply
  }

  function Min(a: nat, b: nat): nat {
    if a <= b then a else b
  }

  /** What the anti-drain floor lets out of the pool. */
  function MaxWithdraw(bankroll: nat, minPool: nat): nat {
    if bankroll > minPool then bankroll - minPool else 0
  }

  datatype WithdrawEstimate = WithdrawEstimate(shares: nat, erg: nat)

  /** `estimate_withdraw` and the withdrawal routes. */
  function EstimateWithdraw(shares: nat, value: nat, supply: nat, minPool: nat): WithdrawEstimate {
    WithdrawEstimate(shares, Min(WithdrawErg(shares, value, supply), MaxWithdraw(value, minPool)))
  }

  /** `estimate_withdraw_for_erg`: the bankroll is the whole value. */
  function EstimateWithdrawForErg(desired: nat, value: nat, supply: nat, minPool: nat): WithdrawEstimate {
    var shares := SharesForErg(desired, value, supply);
    var erg := WithdrawErg(shares, value, supply);
    var cap := MaxWithdraw(value, minPool);
    if erg > cap then WithdrawEstimate(SharesForErg(cap, value, supply), cap)
    else WithdrawEstimate(shares, erg)
  }

  /** Value per share in state (value', supply') is at least that in (value, supply). */
  predicate NotBelow(value': nat, supply': nat, value: nat, supply: nat) {
    value' * supply >= value * supply'
  }

  // ----- Nonlinear steps -----

  /** Comparing ratios is transitive across a positive middle supply. */
  lemma NotBelowTransitive(v2: nat, s2: nat, v1: nat, s1: nat, v0: nat, s0: nat)
    requires s1 > 0 && NotBelow(v2, s2, v1, s1) && NotBelow(v1, s1, v0, s0)
    ensures NotBelow(v2, s2, v0, s0)
  {
    Scale(v1 * s2, v2 * s1, s0);
    Scale(v0 * s1, v1 * s0, s2);
    assert v0 * s2 * s1 == v0 * s1 * s2;
    assert v1 * s0 * s2 == v1 * s2 * s0;
    assert v2 * s1 * s0 == v2 * s0 * s1;
    Cancel(v0 * s2, v2 * s0, s1);
  }

  /** A claim of `erg` for `lp` shares that is covered stays covered when value per share
      does not fall. */
  lemma StillCovered(erg: nat, lp: nat, v: nat, s: nat, v': nat, s': nat)
    requires s > 0 && erg * s <= lp * v && NotBelow(v', s', v, s)
    ensures erg * s' <= lp * v'
  {
    Scale(erg * s, lp * v, s');
    Scale(v * s', v' * s, lp);
    assert erg * s' * s == erg * s * s';
    assert lp * v * s' == v * s' * lp;
    assert v' * s * lp == lp * v' * s;
    Cancel(erg * s', lp * v', s);
  }

  // ----- What the calculators compute -----

  /** The largest number of shares the deposit pays for, one for one while the pool has no
      shares or no value. */
  lemma DepositSharesMeaning(deposit: nat, value: nat, supply: nat)
    ensures
      var shares := DepositShares(deposit, value, supply);
      if supply == 0 || value == 0 then shares == deposit
      else shares * value <= deposit * supply < (shares + 1) * value
  {
    if supply > 0 && value > 0 {
      Floor(deposit * supply, value);
      OneMore(DepositShares(deposit, value, supply), value);
    }
  }

  lemma OneMore(q: nat, b: nat)
    ensures (q + 1) * b == q * b + b
  {
  }

  /** The largest amount the burned shares are worth, nothing while there are none. */
  lemma WithdrawErgMeaning(burn: nat, value: nat, supply: nat)
    ensures
      var erg := WithdrawErg(burn, value, supply);
      if supply == 0 then erg == 0 else erg * supply <= burn * value < (erg + 1) * supply
  {
    if supply > 0 {
      Floor(burn * value, supply);
      OneMore(WithdrawErg(burn, value, supply), supply);
    }
  }

  /** The largest number of shares worth no more than what is asked. */
  lemma SharesForErgMeaning(desired: nat, value: nat, supply: nat)
    ensures
      var shares := SharesForErg(desired, value, supply);
      if supply == 0 || value == 0 then shares == 0
      else shares * value <= desired * supply < (shares + 1) * value
  {
    if supply > 0 && value > 0 {
      Floor(desired * supply, value);
      OneMore(SharesForErg(desired, value, supply), value);
    }
  }

  lemma SdkPriceMeaning(value: nat, supply: nat, precision: nat)
    ensures
      var price := SdkPrice(value, supply, precision);
      if supply == 0 then price == precision
      else price * supply <= value * precision < (price + 1) * supply
  {
    if supply > 0 {
      Floor(value * precision, supply);
      OneMore(SdkPrice(value, supply, precision), supply);
    }
  }

  /** The largest amount that the shares are worth and that leaves the floor in the pool. */
  lemma EstimateWithdrawMeaning(shares: nat, value: nat, supply: nat, minPool: nat)
    requires supply > 0
    ensures
      var e := EstimateWithdraw(shares, value, supply, minPool);
      var room := if value > minPool then value - minPool else 0;
      && e.shares == shares
      && e.erg <= room && e.erg * supply <= shares * value
      && (e.erg == room || (e.erg + 1) * supply > shares * value)
  {
    var e := EstimateWithdraw(shares, value, supply, minPool);
    WithdrawErgMeaning(shares, value, supply);
    Scale(e.erg, WithdrawErg(shares, value, supply), supply);
  }

  // ----- One deposit, one withdrawal -----

  lemma DepositKeepsPrice(deposit: nat, value: nat, supply: nat)
    requires supply > 0
    ensures NotBelow(value + deposit, supply + DepositShares(deposit, value, supply), value, supply)
  {
    var shares := DepositShares(deposit, value, supply);
    if value > 0 {
      Floor(deposit * supply, value);
    }
    assert (value + deposit) * supply == value * supply + deposit * supply;
    assert value * (supply + shares) == value * supply + shares * value;
  }

  lemma WithdrawCovered(burn: nat, value: nat, supply: nat)
    requires supply > 0
    ensures WithdrawErg(burn, value, supply) * supply <= burn * value
                                                      < WithdrawErg(burn, value, supply) * supply + supply
    ensures burn <= supply ==> WithdrawErg(burn, value, supply) <= value
  {
    Floor(burn * value, supply);
    if burn <= supply {
      Scale(burn, supply, value);
      Cancel(WithdrawErg(burn, value, supply), value, supply);
    }
  }

  /** Burning `lp` for a covered amount does not lower value per share. */
  lemma PayoutKeepsPrice(erg: nat, lp: nat, value: nat, supply: nat)
    requires lp <= supply && erg <= value && erg * supply <= lp * value
    ensures NotBelow(value - erg, supply - lp, value, supply)
  {
    assert (value - erg) * supply == value * supply - erg * supply;
    assert value * (supply - lp) == value * supply - lp * value;
  }

  /** ERG returned when the shares just bought are burned at once, without a cap. */
  function ThereAndBack(deposit: nat, value: nat, supply: nat): nat {
    var shares := DepositShares(deposit, value, supply);
    WithdrawErg(shares, value + deposit, supply + shares)
  }

  lemma BackBound(deposit: nat, value: nat, supply: nat, shares: nat, erg: nat)
    requires supply > 0 && value > 0
    requires shares * value <= deposit * supply < shares * value + value
    requires erg * (supply + shares) <= shares * (value + deposit) < erg * (supply + shares) + (supply + shares)
    ensures 0 <= (deposit - erg) * (supply + shares) < value + (supply + shares)
    ensures erg <= deposit
  {
    var s' := supply + shares;
    assert (deposit - erg) * s' == deposit * s' - erg * s';
    assert deposit * s' == deposit * supply + deposit * shares;
    assert shares * (value + deposit) == shares * value + deposit * shares;
    Cancel(erg, deposit, s');
  }

  /** With shares outstanding a deposit followed by a withdrawal returns at most the deposit.
      It loses less than one share's price plus one nanoERG exactly when the pool was not
      worthless: at value zero shares are minted one to one and dilute. */
  lemma DepositThenWithdraw(deposit: nat, value: nat, supply: nat)
    requires supply > 0
    ensures
      var supply' := supply + DepositShares(deposit, value, supply);
      var erg := ThereAndBack(deposit, value, supply);
      && erg <= deposit
      && ((deposit - erg) * supply' < value + supply' <==> value > 0 || deposit == 0)
  {
    var shares := DepositShares(deposit, value, supply);
    var erg := ThereAndBack(deposit, value, supply);
    WithdrawCovered(shares, value + deposit, supply + shares);
    if value > 0 {
      Floor(deposit * supply, value);
      BackBound(deposit, value, supply, shares, erg);
    } else {
      WorthlessPoolDilutes(deposit, supply, erg);
      if erg < deposit {
        Scale(1, deposit - erg, supply + deposit);
      }
    }
  }

  lemma WorthlessPoolDilutes(deposit: nat, supply: nat, erg: nat)
    requires supply > 0 && erg * (supply + deposit) <= deposit * deposit
    ensures if deposit > 0 then erg < deposit else erg == 0
  {
    var s' := supply + deposit;
    Scale(deposit + 1, s', deposit);
    if deposit <= erg {
      Scale(deposit, erg, s');
    }
  }

  /** With no shares outstanding the first depositor owns whatever is left in the pool; so
      depositing and withdrawing pays more than it cost exactly then. */
  lemma FirstDepositorTakesLeftover(deposit: nat, value: nat)
    requires deposit > 0
    ensures ThereAndBack(deposit, value, 0) == value + deposit
  {
    ExactQuotient(value + deposit, deposit);
    assert deposit * (value + deposit) == (value + deposit) * deposit;
  }

  lemma ProfitIff(deposit: nat, value: nat, supply: nat)
    ensures ThereAndBack(deposit, value, supply) > deposit <==> supply == 0 && value > 0 && deposit > 0
  {
    if supply > 0 {
      DepositThenWithdraw(deposit, value, supply);
    } else if deposit > 0 {
      FirstDepositorTakesLeftover(deposit, value);
    }
  }

  // ----- Estimates -----

  lemma MissBound(desired: nat, value: nat, supply: nat, shares: nat, erg: nat)
    requires supply > 0
    requires shares * value <= desired * supply < shares * value + value
    requires erg * supply <= shares * value < erg * supply + supply
    ensures erg <= desired && (desired - erg) * supply < value + supply
  {
    Cancel(erg, desired, supply);
    assert (desired - erg) * supply == desired * supply - erg * supply;
  }

  /** Asking for an amount: without the cap it is never exceeded, and missed by less than
      one share's price plus one nanoERG exactly when the pool is worth something (or
      nothing is asked). */
  lemma EstimateForErgUncapped(desired: nat, value: nat, supply: nat, minPool: nat)
    requires supply > 0
    requires WithdrawErg(SharesForErg(desired, value, supply), value, supply) <= MaxWithdraw(value, minPool)
    ensures
      var e := EstimateWithdrawForErg(desired, value, supply, minPool);
      && e.erg <= desired
      && ((desired - e.erg) * supply < value + supply <==> value > 0 || desired == 0)
      && e.erg * supply <= e.shares * value < (e.erg + 1) * supply
      && (if value == 0 then e.shares == 0
          else e.shares * value <= desired * supply < (e.shares + 1) * value)
  {
    var shares := SharesForErg(desired, value, supply);
    WithdrawErgMeaning(shares, value, supply);
    SharesForErgMeaning(desired, value, supply);
    WithdrawCovered(shares, value, supply);
    if value > 0 {
      Floor(desired * supply, value);
      MissBound(desired, value, supply, shares, WithdrawErg(shares, value, supply));
    } else if desired > 0 {
      Scale(1, desired, supply);
    }
  }

  /** In the capped branch the pool keeps its floor and pays at least what the burned
      shares are worth, overpaying by less than one share. */
  lemma EstimateForErgCapped(desired: nat, value: nat, supply: nat, minPool: nat)
    requires supply > 0
    requires WithdrawErg(SharesForErg(desired, value, supply), value, supply) > MaxWithdraw(value, minPool)
    ensures
      var e := EstimateWithdrawForErg(desired, value, supply, minPool);
      && e.erg == (if value > minPool then value - minPool else 0) < desired
      && 0 <= e.erg * supply - e.shares * value < value
      && e.shares <= SharesForErg(desired, value, supply)
  {
    var cap := MaxWithdraw(value, minPool);
    assert value > 0;
    RequestNotExceeded(desired, value, supply);
    SharesMonotone(cap, desired, value, supply);
    Floor(cap * supply, value);
  }

  lemma RequestNotExceeded(desired: nat, value: nat, supply: nat)
    requires supply > 0 && value > 0
    ensures WithdrawErg(SharesForErg(desired, value, supply), value, supply) <= desired
  {
    var shares := SharesForErg(desired, value, supply);
    Floor(desired * supply, value);
    WithdrawCovered(shares, value, supply);
    MissBound(desired, value, supply, shares, WithdrawErg(shares, value, supply));
  }

  lemma SharesMonotone(a: nat, b: nat, value: nat, supply: nat)
    requires a <= b && value > 0
    ensures SharesForErg(a, value, supply) <= SharesForErg(b, value, supply)
  {
    Scale(a, b, supply);
    Floor(a * supply, value);
    FloorLargest(a * supply / value, b * supply, value);
  }

  // ----- Splitting -----

  function Sum(xs: seq<nat>): nat {
    if xs == [] then 0 else xs[0] + Sum(xs[1..])
  }

  lemma {:induction false} SumConcat(a: seq<nat>, b: seq<nat>)
    ensures Sum(a + b) == Sum(a) + Sum(b)
    decreases |a|
  {
    if a == [] {
      assert a + b == b;
    } else {
      assert (a + b)[1..] == a[1..] + b;
      SumConcat(a[1..], b);
    }
  }

  lemma SumOne(x: nat)
    ensures Sum([x]) == x && Sum([]) == 0
  {
    assert [x][1..] == [];
  }

  /** Shares minted by deposits made one after another. */
  function MintEach(deposits: seq<nat>, value: nat, supply: nat): nat {
    if deposits == [] then 0
    else
      var shares := DepositShares(deposits[0], value, supply);
      shares + MintEach(deposits[1..], value + deposits[0], supply + shares)
  }

  lemma MintPrice(d: nat, v: nat, s: nat, shares: nat)
    requires shares * v <= d * s
    ensures (s + shares) * v <= s * (v + d)
  {
    assert (s + shares) * v == s * v + shares * v;
    assert s * (v + d) == s * v + d * s;
  }

  lemma MintLater(rest: nat, v: nat, s: nat, v1: nat, s1: nat, later: nat)
    requires v1 > 0 && s1 * v <= s * v1 && later * v1 <= rest * s1
    ensures later * v <= rest * s
  {
    Scale(later * v1, rest * s1, v);
    Scale(s1 * v, s * v1, rest);
    assert later * v * v1 == later * v1 * v;
    assert rest * s1 * v == s1 * v * rest;
    assert s * v1 * rest == rest * s * v1;
    Cancel(later * v, rest * s, v1);
  }

  lemma MintStep(d: nat, rest: nat, v: nat, s: nat, shares: nat, later: nat)
    requires v > 0 && s > 0 && shares * v <= d * s
    requires later * (v + d) <= rest * (s + shares)
    ensures (shares + later) * v <= (d + rest) * s
  {
    MintPrice(d, v, s, shares);
    MintLater(rest, v, s, v + d, s + shares, later);
    assert (shares + later) * v == shares * v + later * v;
    assert (d + rest) * s == d * s + rest * s;
  }

  lemma {:induction false} MintEachCovered(deposits: seq<nat>, value: nat, supply: nat)
    requires value > 0 && supply > 0
    ensures MintEach(deposits, value, supply) * value <= Sum(deposits) * supply
  {
    if deposits != [] {
      var d := deposits[0];
      var shares := DepositShares(d, value, supply);
      Floor(d * supply, value);
      MintEachCovered(deposits[1..], value + d, supply + shares);
      MintStep(d, Sum(deposits[1..]), value, supply, shares,
               MintEach(deposits[1..], value + d, supply + shares));
    }
  }

  lemma AtMostRest(minted: nat, rest: nat, value: nat, d: nat)
    requires d > 0 && minted * (value + d) <= rest * d
    ensures minted <= rest
  {
    Scale(d, value + d, rest);
    Cancel(minted, rest, value + d);
  }

  /** Without shares the first positive deposit is minted one to one, the later ones at
      most so. */
  lemma {:induction false} MintEachFirst(deposits: seq<nat>, value: nat)
    ensures MintEach(deposits, value, 0) <= Sum(deposits)
  {
    if deposits != [] {
      var d, rest := deposits[0], Sum(deposits[1..]);
      if d == 0 {
        MintEachFirst(deposits[1..], value);
      } else {
        MintEachCovered(deposits[1..], value + d, d);
        AtMostRest(MintEach(deposits[1..], value + d, d), rest, value, d);
      }
    }
  }

  /** Splitting a deposit never mints more shares: in a pool with value, or without shares. */
  lemma SplitDepositNeverGains(deposits: seq<nat>, value: nat, supply: nat)
    requires value > 0 || supply == 0
    ensures MintEach(deposits, value, supply) <= DepositShares(Sum(deposits), value, supply)
  {
    if supply == 0 {
      MintEachFirst(deposits, value);
    } else {
      MintEachCovered(deposits, value, supply);
      FloorLargest(MintEach(deposits, value, supply), Sum(deposits) * supply, value);
    }
  }

  /** In a worthless pool with shares outstanding it gains: the first nanoERG is minted one
      to one and makes the second worth all the shares. */
  lemma SplitGainsWhenWorthless(supply: nat)
    ensures Sum([1, 1]) == 2 && MintEach([1, 1], 0, supply) == supply + 2
  {
    assert [1, 1][1..] == [1];
    assert Sum([1]) == 1;
    assert MintEach([1], 1, supply + 1) == supply + 1;
    assert DepositShares(1, 0, supply) == 1;
  }

  /** So splitting never gains, whatever the deposits, exactly when the pool has value or
      has no shares. */
  lemma SplitDepositNeverGainsIff(value: nat, supply: nat)
    ensures (forall deposits :: MintEach(deposits, value, supply) <= DepositShares(Sum(deposits), value, supply))
            <==> value > 0 || supply == 0
  {
    if value > 0 || supply == 0 {
      forall deposits
        ensures MintEach(deposits, value, supply) <= DepositShares(Sum(deposits), value, supply)
      {
        SplitDepositNeverGains(deposits, value, supply);
      }
    } else {
      SplitGainsWhenWorthless(supply);
    }
  }

  /** ERG paid for burns made one after another, without a cap. */
  function BurnEach(burns: seq<nat>, value: nat, supply: nat): nat
    requires Sum(burns) <= supply
  {
    if burns == [] then 0
    else
      var erg := WithdrawErg(burns[0], value, supply);
      assert erg <= value by {
        if supply > 0 { WithdrawCovered(burns[0], value, supply); }
      }
      erg + BurnEach(burns[1..], value - erg, supply - burns[0])
  }

  /** Products the induction steps rearrange: the first burn's ERG against the rest. */
  lemma UpperFirst(rest: nat, v: nat, s: nat, s1: nat, erg: nat, later: nat)
    requires later * s1 <= rest * (v - erg) && erg <= v
    ensures (erg + later) * s * s1 <= erg * s * (s1 - rest) + rest * v * s
  {
    Scale(later * s1, rest * (v - erg), s);
    assert rest * (v - erg) * s == rest * v * s - rest * (erg * s);
    assert erg * s * (s1 - rest) == erg * s * s1 - rest * (erg * s);
    assert (erg + later) * s * s1 == erg * s * s1 + later * s1 * s;
  }

  lemma UpperSecond(b: nat, rest: nat, v: nat, s1: nat, e: nat)
    requires rest <= s1 && e <= b * v
    ensures e * (s1 - rest) + rest * v * (s1 + b) <= (b + rest) * v * s1
  {
    Scale(e, b * v, s1 - rest);
    assert b * v * (s1 - rest) == b * v * s1 - rest * v * b;
    assert rest * v * (s1 + b) == rest * v * s1 + rest * v * b;
    assert (b + rest) * v * s1 == b * v * s1 + rest * v * s1;
  }

  lemma BurnStepUpper(b: nat, rest: nat, v: nat, s: nat, erg: nat, later: nat)
    requires s > 0 && b + rest <= s && erg <= v && erg * s <= b * v
    requires later * (s - b) <= rest * (v - erg) && (s == b ==> later == 0)
    ensures (erg + later) * s <= (b + rest) * v
  {
    var s1 := s - b;
    if s1 > 0 {
      UpperFirst(rest, v, s, s1, erg, later);
      UpperSecond(b, rest, v, s1, erg * s);
      Cancel((erg + later) * s, (b + rest) * v, s1);
    }
  }

  lemma LowerRest(rest: nat, v: nat, s: nat, v1: nat, s1: nat, got: nat)
    requires s1 > 0 && NotBelow(v1, s1, v, s) && rest * v1 <= got * s1
    ensures rest * v <= got * s
  {
    Scale(rest * v1, got * s1, s);
    Scale(v * s1, v1 * s, rest);
    assert rest * v * s1 == v * s1 * rest;
    assert v1 * s * rest == rest * v1 * s;
    assert got * s1 * s == got * s * s1;
    Cancel(rest * v, got * s, s1);
  }

  lemma BurnStepLower(b: nat, rest: nat, v: nat, s: nat, erg: nat, later: nat, parts: nat)
    requires s > 0 && b + rest <= s && erg <= v && erg * s <= b * v <= erg * s + s
    requires rest * (v - erg) <= (later + parts) * (s - b)
    ensures (b + rest) * v <= (erg + later + parts + 1) * s
  {
    if s > b {
      PayoutKeepsPrice(erg, b, v, s);
      LowerRest(rest, v, s, v - erg, s - b, later + parts);
    }
    assert (b + rest) * v == b * v + rest * v;
    assert (erg + later + parts + 1) * s == erg * s + (later + parts) * s + s;
  }

  lemma {:induction false} BurnEachBounds(burns: seq<nat>, value: nat, supply: nat)
    requires Sum(burns) <= supply
    ensures BurnEach(burns, value, supply) * supply <= Sum(burns) * value
    ensures Sum(burns) * value <= (BurnEach(burns, value, supply) + |burns|) * supply
    ensures supply == 0 ==> BurnEach(burns, value, supply) == 0
    decreases |burns|
  {
    if burns != [] {
      var b, rest := burns[0], Sum(burns[1..]);
      var erg := WithdrawErg(b, value, supply);
      if supply > 0 {
        WithdrawCovered(b, value, supply);
      }
      BurnEachBounds(burns[1..], value - erg, supply - b);
      var later := BurnEach(burns[1..], value - erg, supply - b);
      if supply > 0 {
        BurnStepUpper(b, rest, value, supply, erg, later);
        BurnStepLower(b, rest, value, supply, erg, later, |burns| - 1);
      }
    }
  }

  /** Splitting a withdrawal never returns more ERG, and loses at most one nanoERG a part. */
  lemma SplitWithdrawalNeverGains(burns: seq<nat>, value: nat, supply: nat)
    requires Sum(burns) <= supply
    ensures BurnEach(burns, value, supply) <= WithdrawErg(Sum(burns), value, supply)
                                           <= BurnEach(burns, value, supply) + |burns|
  {
    BurnEachBounds(burns, value, supply);
    if supply > 0 {
      var total := BurnEach(burns, value, supply);
      FloorLargest(total, Sum(burns) * value, supply);
      WithdrawCovered(Sum(burns), value, supply);
      Cancel(WithdrawErg(Sum(burns), value, supply), total + |burns|, supply);
    }
  }
}
