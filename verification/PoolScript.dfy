/** The two on-chain guards: the pool's four spending paths and the withdrawal request's two.
    The text is read strictly: each `val` is evaluated in order, so a `.get` on a missing
    register or box makes the script fail, which is the same as false. The house's signature
    is an input. */
module PoolScript {
  import opened Wrappers
  import opened Vlq
  import opened PoolMath
  import L = PoolLifecycle

  datatype Token = Token(id: nat, amount: nat)

  /** Scripts are byte strings, compared with each other and with the content of R4. */
  datatype Box = Box(
    boxId: nat, value: nat, tokens: seq<Token>, script: seq<Byte>,
    r4: Option<seq<Byte>>, r5: Option<nat>, r6: Option<int>, r7: Option<int>)

  datatype Spend = Spend(inputs: seq<Box>, outputs: seq<Box>, height: int, houseSigns: bool)

  // ----- Pool guard -----

  /** What the script reads from its own box before anything else. */
  predicate IsPool(self: Box) {
    |self.tokens| >= 2 && self.r4.Some? && self.r5.Some? && self.r6.Some? && self.r7.Some?
  }

  predicate Continues(self: Box, b: Box) {
    |self.tokens| >= 2 && |b.tokens| >= 2 && b.tokens[0].id == self.tokens[0].id && b.script == self.script
  }

  /** `OUTPUTS.find`: the first output with the pool's NFT and script. */
  function PoolOut(self: Box, outputs: seq<Box>): (r: Option<Box>)
    ensures r.Some? ==> Continues(self, r.value) && r.value in outputs
    ensures r.None? ==> forall b :: b in outputs ==> !Continues(self, b)
  {
    if outputs == [] then None
    else if Continues(self, outputs[0]) then Some(outputs[0])
    else PoolOut(self, outputs[1..])
  }

  predicate SameParameters(self: Box, out: Box) {
    out.r4 == self.r4 && out.r5 == self.r5 && out.r6 == self.r6 && out.r7 == self.r7
  }

  /** What the script takes for the LP supply: the amount in the second slot, of whatever
      token is there. */
  function SlotAmount(b: Box): nat
    requires |b.tokens| >= 2
  {
    b.tokens[1].amount
  }

  /** What the script takes for a request past its cooldown: an input holding the LP token
      first and two registers whose sum is past, under any script. */
  predicate OpensWithdrawal(self: Box, inp: Box, height: int)
    requires |self.tokens| >= 2
  {
    && inp != self
    && |inp.tokens| >= 1 && inp.tokens[0].id == self.tokens[1].id
    && inp.r6.Some? && inp.r7.Some?
    && height >= inp.r6.value + inp.r7.value
  }

  predicate HasOpener(self: Box, spend: Spend)
    requires |self.tokens| >= 2
  {
    exists i :: 0 <= i < |spend.inputs| && OpensWithdrawal(self, spend.inputs[i], spend.height)
  }

  predicate IsDeposit(self: Box, out: Box, spend: Spend)
    requires IsPool(self) && |out.tokens| >= 2
  {
    SlotAmount(out) > SlotAmount(self) && out.value > self.value && SameParameters(self, out)
  }

  predicate IsWithdraw(self: Box, out: Box, spend: Spend)
    requires IsPool(self) && |out.tokens| >= 2
  {
    && SlotAmount(out) < SlotAmount(self) && out.value < self.value && SameParameters(self, out)
    && out.value >= self.r5.value
    && HasOpener(self, spend)
  }

  predicate IsCollect(self: Box, out: Box, spend: Spend)
    requires IsPool(self) && |out.tokens| >= 2
  {
    SlotAmount(out) == SlotAmount(self) && out.value > self.value && SameParameters(self, out) && spend.houseSigns
  }

  predicate IsUpdate(self: Box, out: Box, spend: Spend)
    requires IsPool(self) && |out.tokens| >= 2
  {
    SlotAmount(out) == SlotAmount(self) && out.value == self.value && spend.houseSigns
  }

  predicate Accepts(self: Box, spend: Spend) {
    && IsPool(self)
    && var out := PoolOut(self, spend.outputs);
    && out.Some?
    && (|| IsDeposit(self, out.value, spend) || IsWithdraw(self, out.value, spend)
        || IsCollect(self, out.value, spend) || IsUpdate(self, out.value, spend))
  }

  datatype Path = DepositPath | WithdrawPath | CollectPath | UpdatePath

  predicate TakesPath(self: Box, spend: Spend, path: Path) {
    && IsPool(self)
    && var out := PoolOut(self, spend.outputs);
    && out.Some?
    && match path
       case DepositPath => IsDeposit(self, out.value, spend)
       case WithdrawPath => IsWithdraw(self, out.value, spend)
       case CollectPath => IsCollect(self, out.value, spend)
       case UpdatePath => IsUpdate(self, out.value, spend)
  }

  /** An accepted spend takes exactly one path. */
  lemma PathsExclusive(self: Box, spend: Spend)
    ensures Accepts(self, spend) <==> exists path :: TakesPath(self, spend, path)
    ensures forall p, q :: TakesPath(self, spend, p) && TakesPath(self, spend, q) ==> p == q
  {
    if Accepts(self, spend) {
      var out := PoolOut(self, spend.outputs).value;
      if IsDeposit(self, out, spend) {
        assert TakesPath(self, spend, DepositPath);
      } else if IsWithdraw(self, out, spend) {
        assert TakesPath(self, spend, WithdrawPath);
      } else if IsCollect(self, out, spend) {
        assert TakesPath(self, spend, CollectPath);
      } else {
        assert TakesPath(self, spend, UpdatePath);
      }
    }
  }

  function Next(self: Box, spend: Spend): Box {
    var out := PoolOut(self, spend.outputs);
    if out.Some? then out.value else self
  }

  /** What one accepted spend can change, and on which path. */
  lemma AcceptedChange(self: Box, spend: Spend)
    requires Accepts(self, spend)
    ensures
      var out := Next(self, spend);
      && Continues(self, out)
      && (!SameParameters(self, out) ==> TakesPath(self, spend, UpdatePath))
      && (SlotAmount(out) > SlotAmount(self) <==> TakesPath(self, spend, DepositPath))
      && (SlotAmount(out) < SlotAmount(self) <==> TakesPath(self, spend, WithdrawPath))
      && (out.value < self.value <==> TakesPath(self, spend, WithdrawPath))
      && (out.value < self.value ==>
            out.value >= self.r5.value && HasOpener(self, spend) && SameParameters(self, out))
      && (!spend.houseSigns ==> (SlotAmount(out) > SlotAmount(self) <==> out.value > self.value)
                                && SlotAmount(out) != SlotAmount(self))
  {
  }

  // ----- The guard, in terms of the boxes alone -----

  /** The k-th output is the first with the pool's NFT first, a second token, and its script. */
  predicate FirstContinuing(self: Box, outputs: seq<Box>, k: nat)
    requires |self.tokens| >= 2
  {
    && k < |outputs|
    && |outputs[k].tokens| >= 2 && outputs[k].tokens[0].id == self.tokens[0].id && outputs[k].script == self.script
    && forall i :: 0 <= i < k ==>
         |outputs[i].tokens| < 2 || outputs[i].tokens[0].id != self.tokens[0].id || outputs[i].script != self.script
  }

  lemma {:induction false} FirstIsPoolOut(self: Box, outputs: seq<Box>, k: nat)
    requires |self.tokens| >= 2 && FirstContinuing(self, outputs, k)
    ensures PoolOut(self, outputs) == Some(outputs[k])
    decreases k
  {
    if k > 0 {
      assert !Continues(self, outputs[0]);
      assert FirstContinuing(self, outputs[1..], k - 1);
      FirstIsPoolOut(self, outputs[1..], k - 1);
    }
  }

  /** Some input other than the pool box has the LP token first and R6 + R7 past. */
  predicate HasPastInput(self: Box, spend: Spend)
    requires |self.tokens| >= 2
  {
    exists i :: 0 <= i < |spend.inputs| && spend.inputs[i] != self
                && |spend.inputs[i].tokens| >= 1 && spend.inputs[i].tokens[0].id == self.tokens[1].id
                && spend.inputs[i].r6.Some? && spend.inputs[i].r7.Some?
                && spend.height >= spend.inputs[i].r6.value + spend.inputs[i].r7.value
  }

  /** The whole guard as a table over the two differences: both up, a deposit, and both down,
      a withdrawal, keep R4 to R7, and a withdrawal leaves the minimum deposit beside a past
      input; amount equal and value up, a collection, keeps them and is signed; both equal,
      an update, is signed; nothing else is accepted. */
  lemma AcceptedIff(self: Box, spend: Spend, k: nat)
    requires |self.tokens| >= 2 && self.r4.Some? && self.r5.Some? && self.r6.Some? && self.r7.Some?
    requires FirstContinuing(self, spend.outputs, k)
    ensures
      var out := spend.outputs[k];
      var slot, slot' := self.tokens[1].amount, out.tokens[1].amount;
      var same := out.r4 == self.r4 && out.r5 == self.r5 && out.r6 == self.r6 && out.r7 == self.r7;
      Accepts(self, spend) <==>
        if slot' > slot then out.value > self.value && same
        else if slot' < slot then
          out.value < self.value && same && out.value >= self.r5.value && HasPastInput(self, spend)
        else if out.value > self.value then same && spend.houseSigns
        else out.value == self.value && spend.houseSigns
  {
    FirstIsPoolOut(self, spend.outputs, k);
    assert HasOpener(self, spend) <==> HasPastInput(self, spend) by {
      OpenerIsPastInput(self, spend);
    }
  }

  lemma OpenerIsPastInput(self: Box, spend: Spend)
    requires |self.tokens| >= 2
    ensures HasOpener(self, spend) <==> HasPastInput(self, spend)
  {
    if i :| 0 <= i < |spend.inputs| && OpensWithdrawal(self, spend.inputs[i], spend.height) {
      assert spend.inputs[i] != self;
    }
    if HasPastInput(self, spend) {
      var i :| 0 <= i < |spend.inputs| && spend.inputs[i] != self
               && |spend.inputs[i].tokens| >= 1 && spend.inputs[i].tokens[0].id == self.tokens[1].id
               && spend.inputs[i].r6.Some? && spend.inputs[i].r7.Some?
               && spend.height >= spend.inputs[i].r6.value + spend.inputs[i].r7.value;
      assert OpensWithdrawal(self, spend.inputs[i], spend.height);
    }
  }

  /** A box without two tokens or one of R4 to R7 is never spent, and none is spent without a
      continuing output. */
  lemma RejectedWithout(self: Box, spend: Spend)
    requires || |self.tokens| < 2 || self.r4.None? || self.r5.None? || self.r6.None? || self.r7.None?
             || forall b :: b in spend.outputs ==>
                  |b.tokens| < 2 || b.tokens[0].id != self.tokens[0].id || b.script != self.script
    ensures !Accepts(self, spend)
  {
  }

  /** A profit collection: the box alone, recreated with more value, is accepted exactly if
      the house signs; and so is an update to any registers. */
  lemma HouseSpendsIff(self: Box, gain: nat, r4: Option<seq<Byte>>, r5: Option<nat>, r6: Option<int>, r7: Option<int>,
                       height: int, signs: bool)
    requires |self.tokens| >= 2 && self.r4.Some? && self.r5.Some? && self.r6.Some? && self.r7.Some?
    ensures gain > 0 ==>
              (Accepts(self, Spend([self], [self.(value := self.value + gain)], height, signs)) <==> signs)
    ensures Accepts(self, Spend([self], [self.(r4 := r4, r5 := r5, r6 := r6, r7 := r7)], height, signs)) <==> signs
  {
    AcceptedIff(self, Spend([self], [self.(value := self.value + gain)], height, signs), 0);
    AcceptedIff(self, Spend([self], [self.(r4 := r4, r5 := r5, r6 := r6, r7 := r7)], height, signs), 0);
  }

  // ----- Runs of the pool box -----

  /** Every spend of the run is accepted by the box the previous one left. */
  predicate AcceptedRun(self: Box, spends: seq<Spend>)
    decreases |spends|
  {
    spends == [] || (Accepts(self, spends[0]) && AcceptedRun(Next(self, spends[0]), spends[1..]))
  }

  function Final(self: Box, spends: seq<Spend>): Box
    decreases |spends|
  {
    if spends == [] then self else Final(Next(self, spends[0]), spends[1..])
  }

  predicate NoneOnPath(self: Box, spends: seq<Spend>, path: Path)
    decreases |spends|
  {
    spends == [] || (!TakesPath(self, spends[0], path) && NoneOnPath(Next(self, spends[0]), spends[1..], path))
  }

  /** The pool keeps its NFT and script through any accepted run. */
  lemma {:induction false} RunContinues(self: Box, spends: seq<Spend>)
    requires AcceptedRun(self, spends) && spends != []
    ensures Continues(self, Final(self, spends))
    decreases |spends|
  {
    AcceptedChange(self, spends[0]);
    if |spends| > 1 {
      RunContinues(Next(self, spends[0]), spends[1..]);
    } else {
      assert spends[1..] == [];
    }
  }

  /** R4 to R7 change only by update: a run without one ends with the registers it began
      with and never lies below the minimum deposit unless it started there. */
  lemma {:induction false} ParametersNeedUpdate(self: Box, spends: seq<Spend>)
    requires AcceptedRun(self, spends) && NoneOnPath(self, spends, UpdatePath) && IsPool(self)
    ensures SameParameters(self, Final(self, spends))
    ensures Final(self, spends).value >= Min(self.value, self.r5.value)
    decreases |spends|
  {
    if spends != [] {
      AcceptedChange(self, spends[0]);
      ParametersNeedUpdate(Next(self, spends[0]), spends[1..]);
    }
  }

  /** The amount in the second slot changes only by deposit and withdrawal, and value falls
      only by withdrawal. */
  lemma {:induction false} SlotNeedsHolders(self: Box, spends: seq<Spend>)
    requires AcceptedRun(self, spends) && IsPool(self)
    requires NoneOnPath(self, spends, WithdrawPath)
    ensures
      var end := Final(self, spends);
      && |end.tokens| >= 2
      && end.value >= self.value && SlotAmount(end) >= SlotAmount(self)
      && (NoneOnPath(self, spends, DepositPath) ==> SlotAmount(end) == SlotAmount(self))
    decreases |spends|
  {
    if spends != [] {
      AcceptedChange(self, spends[0]);
      var next := Next(self, spends[0]);
      if spends[1..] != [] {
        SlotNeedsHolders(next, spends[1..]);
      }
    }
  }

  // ----- The LP token -----

  /** How much of a token a box holds, in any slot. */
  function Amount(tokens: seq<Token>, id: nat): nat {
    if tokens == [] then 0 else (if tokens[0].id == id then tokens[0].amount else 0) + Amount(tokens[1..], id)
  }

  /** A box lists a token once. */
  predicate ListsOnce(b: Box) {
    forall i, j :: 0 <= i < j < |b.tokens| ==> b.tokens[i].id != b.tokens[j].id
  }

  lemma {:induction false} AmountAt(tokens: seq<Token>, id: nat, k: nat)
    requires forall i, j :: 0 <= i < j < |tokens| ==> tokens[i].id != tokens[j].id
    requires k < |tokens| && tokens[k].id == id
    ensures Amount(tokens, id) == tokens[k].amount
    decreases |tokens|
  {
    if k == 0 {
      AmountAbsent(tokens[1..], id);
    } else {
      AmountAt(tokens[1..], id, k - 1);
    }
  }

  lemma {:induction false} AmountAbsent(tokens: seq<Token>, id: nat)
    requires forall i :: 0 <= i < |tokens| ==> tokens[i].id != id
    ensures Amount(tokens, id) == 0
    decreases |tokens|
  {
    if tokens != [] {
      AmountAbsent(tokens[1..], id);
    }
  }

  /** The token in the pool's second slot. */
  function LpId(self: Box): nat
    requires |self.tokens| >= 2
  {
    self.tokens[1].id
  }

  /** The LP tokens the pool box holds. */
  function LpAmount(b: Box, lp: nat): nat {
    Amount(b.tokens, lp)
  }

  /** The guard does not look at the id in the second slot: for every pool box there is an
      accepted deposit that adds one nanoERG and holds no LP token any more. */
  lemma SlotCanBeSwapped(self: Box, other: nat, height: int, signs: bool)
    requires IsPool(self) && ListsOnce(self) && other != LpId(self)
    ensures
      var out := self.(value := self.value + 1, tokens := [self.tokens[0], Token(other, SlotAmount(self) + 1)]);
      && TakesPath(self, Spend([self], [out], height, signs), DepositPath)
      && LpAmount(out, LpId(self)) == 0
  {
    var out := self.(value := self.value + 1, tokens := [self.tokens[0], Token(other, SlotAmount(self) + 1)]);
    assert PoolOut(self, [out]) == Some(out);
    AmountAbsent(out.tokens, LpId(self));
  }

  /** Every spend of the run leaves the LP token in the second slot of the continuing box. */
  predicate KeepsSlot(self: Box, spends: seq<Spend>)
    requires |self.tokens| >= 2
    decreases |spends|
  {
    spends == []
    || (var next := Next(self, spends[0]);
        HasInSlot(next, LpId(self)) && KeepsSlot(next, spends[1..]))
  }

  predicate HasInSlot(b: Box, lp: nat) {
    |b.tokens| >= 2 && LpId(b) == lp
  }

  predicate AllListOnce(self: Box, spends: seq<Spend>)
    decreases |spends|
  {
    ListsOnce(self) && (spends == [] || AllListOnce(Next(self, spends[0]), spends[1..]))
  }

  /** With the LP token kept in its slot, the LP tokens the pool holds grow exactly by deposit
      and fall exactly by withdrawal. */
  lemma LpChange(self: Box, spend: Spend)
    requires Accepts(self, spend) && HasInSlot(Next(self, spend), LpId(self))
    requires ListsOnce(self) && ListsOnce(Next(self, spend))
    ensures
      var out, lp := Next(self, spend), LpId(self);
      && (LpAmount(out, lp) > LpAmount(self, lp) <==> TakesPath(self, spend, DepositPath))
      && (LpAmount(out, lp) < LpAmount(self, lp) <==> TakesPath(self, spend, WithdrawPath))
  {
    AcceptedChange(self, spend);
    AmountAt(self.tokens, LpId(self), 1);
    AmountAt(Next(self, spend).tokens, LpId(self), 1);
  }

  /** The same over runs: without withdrawals the pool loses no LP token and no value, and
      without deposits too it gains no LP token. */
  lemma {:induction false} LpNeedsHolders(self: Box, spends: seq<Spend>)
    requires AcceptedRun(self, spends) && IsPool(self) && AllListOnce(self, spends) && KeepsSlot(self, spends)
    requires NoneOnPath(self, spends, WithdrawPath)
    ensures
      var end, lp := Final(self, spends), LpId(self);
      && LpAmount(end, lp) >= LpAmount(self, lp) && end.value >= self.value
      && (NoneOnPath(self, spends, DepositPath) ==> LpAmount(end, lp) == LpAmount(self, lp))
    decreases |spends|
  {
    if spends != [] {
      var next := Next(self, spends[0]);
      assert ListsOnce(next);
      LpChange(self, spends[0]);
      AcceptedChange(self, spends[0]);
      if spends[1..] != [] {
        LpNeedsHolders(next, spends[1..]);
      }
    }
  }

  lemma FinalShift(self: Box, spends: seq<Spend>, i: nat)
    requires 0 < i <= |spends|
    ensures Final(self, spends[..i]) == Final(Next(self, spends[0]), spends[1..][..i - 1])
  {
    assert spends[..i][1..] == spends[1..][..i - 1];
  }

  /** The id in the second slot is the LP token's in every state of a run exactly when every
      spend keeps it. */
  lemma {:induction false} LpIdSurvivesIff(self: Box, spends: seq<Spend>)
    requires |self.tokens| >= 2
    ensures KeepsSlot(self, spends)
            <==> forall i :: 0 <= i <= |spends| ==> HasInSlot(Final(self, spends[..i]), LpId(self))
    decreases |spends|
  {
    if spends != [] {
      var next, rest := Next(self, spends[0]), spends[1..];
      FinalShift(self, spends, 1);
      assert Final(next, rest[..0]) == next;
      if HasInSlot(next, LpId(self)) {
        LpIdSurvivesIff(next, rest);
        forall i | 0 < i <= |spends|
          ensures Final(self, spends[..i]) == Final(next, rest[..i - 1])
        {
          FinalShift(self, spends, i);
        }
        assert forall j :: 0 <= j <= |rest| ==> Final(next, rest[..j]) == Final(self, spends[..j + 1]);
      }
    }
  }

  // ----- Who opens a withdrawal -----

  /** The pool box after the largest withdrawal that burns one unit. */
  function Drained(self: Box): Box
    requires IsPool(self) && SlotAmount(self) >= 1
  {
    self.(value := self.r5.value, tokens := self.tokens[1 := Token(LpId(self), SlotAmount(self) - 1)])
  }

  /** Exactly the boxes that open a withdrawal let the pool be drained to its minimum deposit
      in one spend; the box's script is not looked at. */
  lemma OpensWithdrawalIff(self: Box, b: Box, height: int, signs: bool)
    requires IsPool(self) && SlotAmount(self) >= 1 && self.value > self.r5.value
    ensures TakesPath(self, Spend([self, b], [Drained(self)], height, signs), WithdrawPath)
            <==> && b != self && |b.tokens| >= 1 && b.tokens[0].id == self.tokens[1].id
                 && b.r6.Some? && b.r7.Some? && height >= b.r6.value + b.r7.value
  {
    var spend := Spend([self, b], [Drained(self)], height, signs);
    assert PoolOut(self, spend.outputs) == Some(Drained(self));
    assert spend.inputs[1] == b;
  }

  /** So under any script whatever, one LP token and two zero registers bypass the cooldown. */
  lemma CooldownBypassed(self: Box, script: seq<Byte>, boxId: nat, height: nat, signs: bool)
    requires IsPool(self) && SlotAmount(self) >= 1 && self.value > self.r5.value
    ensures
      var b := Box(boxId, 1_000_000, [Token(LpId(self), 1)], script, None, None, Some(0), Some(0));
      TakesPath(self, Spend([self, b], [Drained(self)], height, signs), WithdrawPath)
  {
    var b := Box(boxId, 1_000_000, [Token(LpId(self), 1)], script, None, None, Some(0), Some(0));
    OpensWithdrawalIff(self, b, height, signs);
  }

  /** Every input that opens a withdrawal is under the request's script. */
  predicate OpenersGenuine(self: Box, spend: Spend, requestScript: seq<Byte>)
    requires |self.tokens| >= 2
  {
    forall i :: 0 <= i < |spend.inputs| && OpensWithdrawal(self, spend.inputs[i], spend.height) ==>
      spend.inputs[i].script == requestScript
  }

  /** Some input under the request's script has passed its cooldown. */
  predicate SpendsRequest(self: Box, spend: Spend, requestScript: seq<Byte>)
    requires |self.tokens| >= 2
  {
    exists i :: 0 <= i < |spend.inputs| && spend.inputs[i].script == requestScript
                && OpensWithdrawal(self, spend.inputs[i], spend.height)
  }

  /** Every withdrawal with some of the given inputs at its side spends a matured request
      exactly when each of them that opens one is under the request's script. */
  lemma RequestSpentIff(self: Box, inputs: seq<Box>, height: int, requestScript: seq<Byte>)
    requires IsPool(self) && SlotAmount(self) >= 1 && self.value > self.r5.value
    ensures OpenersGenuine(self, Spend(inputs, [], height, false), requestScript)
            <==> forall spend :: WithdrawsBeside(self, spend, inputs, height) ==>
                                   SpendsRequest(self, spend, requestScript)
  {
    var all := Spend(inputs, [], height, false);
    if OpenersGenuine(self, all, requestScript) {
      forall spend | WithdrawsBeside(self, spend, inputs, height)
        ensures SpendsRequest(self, spend, requestScript)
      {
        GenuineOpener(self, spend, inputs, requestScript);
      }
    } else {
      var i :| 0 <= i < |inputs| && OpensWithdrawal(self, inputs[i], height) && inputs[i].script != requestScript;
      var spend := Spend([self, inputs[i]], [Drained(self)], height, false);
      OpensWithdrawalIff(self, inputs[i], height, false);
      assert WithdrawsBeside(self, spend, inputs, height);
      assert !OpensWithdrawal(self, self, height);
    }
  }

  /** A withdrawal with no input but these beside the pool box. */
  predicate WithdrawsBeside(self: Box, spend: Spend, inputs: seq<Box>, height: int) {
    TakesPath(self, spend, WithdrawPath) && spend.height == height
    && forall b :: b in spend.inputs ==> b == self || b in inputs
  }

  lemma GenuineOpener(self: Box, spend: Spend, inputs: seq<Box>, requestScript: seq<Byte>)
    requires WithdrawsBeside(self, spend, inputs, spend.height)
    requires OpenersGenuine(self, Spend(inputs, [], spend.height, false), requestScript)
    ensures SpendsRequest(self, spend, requestScript)
  {
    var i :| 0 <= i < |spend.inputs| && OpensWithdrawal(self, spend.inputs[i], spend.height);
    assert spend.inputs[i] in inputs;
    var k :| 0 <= k < |inputs| && inputs[k] == spend.inputs[i];
    assert OpensWithdrawal(self, inputs[k], spend.height);
  }

  // ----- Withdrawal request guard -----

  /** The output holds at least the request's tokens, in first place. */
  predicate Carries(self: Box, b: Box)
    requires |self.tokens| >= 1
  {
    |b.tokens| >= 1 && b.tokens[0].id == self.tokens[0].id && b.tokens[0].amount >= self.tokens[0].amount
  }

  function CancelOut(self: Box, outputs: seq<Box>): (r: Option<Box>)
    requires |self.tokens| >= 1
    ensures r.Some? ==> r.value in outputs && Carries(self, r.value)
    ensures r.None? ==> forall b :: b in outputs ==> !Carries(self, b)
  {
    if outputs == [] then None
    else if Carries(self, outputs[0]) then Some(outputs[0])
    else CancelOut(self, outputs[1..])
  }

  predicate IsRequest(self: Box) {
    |self.tokens| >= 1 && self.r4.Some? && self.r5.Some? && self.r6.Some? && self.r7.Some?
  }

  predicate IsMature(self: Box, height: int)
    requires IsRequest(self)
  {
    height >= self.r6.value + self.r7.value
  }

  /** R4 holds the holder's script. `cancelOut` is found before either path is tried. */
  predicate RequestAccepts(self: Box, spend: Spend) {
    && IsRequest(self)
    && var out := CancelOut(self, spend.outputs);
    && out.Some?
    && (IsMature(self, spend.height) || out.value.script == self.r4.value)
  }

  /** The request's guard in terms of the boxes alone: a complete request is spent exactly if
      some output has its token first in at least its amount, and the cooldown has passed or
      the first such output is under the script in R4. */
  lemma RequestAcceptedIff(self: Box, spend: Spend, k: nat)
    requires |self.tokens| >= 1 && self.r4.Some? && self.r5.Some? && self.r6.Some? && self.r7.Some?
    requires k <= |spend.outputs|
    requires forall i :: 0 <= i < k ==> !HoldsAtLeast(spend.outputs[i], self.tokens[0])
    requires k < |spend.outputs| ==> HoldsAtLeast(spend.outputs[k], self.tokens[0])
    ensures RequestAccepts(self, spend) <==>
              k < |spend.outputs|
              && (spend.height >= self.r6.value + self.r7.value || spend.outputs[k].script == self.r4.value)
  {
    FirstIsCancelOut(self, spend.outputs, k);
  }

  /** The box has the token first, in at least the amount. */
  predicate HoldsAtLeast(b: Box, t: Token) {
    |b.tokens| >= 1 && b.tokens[0].id == t.id && b.tokens[0].amount >= t.amount
  }

  lemma {:induction false} FirstIsCancelOut(self: Box, outputs: seq<Box>, k: nat)
    requires |self.tokens| >= 1 && k <= |outputs|
    requires forall i :: 0 <= i < k ==> !HoldsAtLeast(outputs[i], self.tokens[0])
    requires k < |outputs| ==> HoldsAtLeast(outputs[k], self.tokens[0])
    ensures CancelOut(self, outputs) == if k < |outputs| then Some(outputs[k]) else None
    decreases k
  {
    if k > 0 {
      assert !Carries(self, outputs[0]);
      FirstIsCancelOut(self, outputs[1..], k - 1);
    } else if outputs != [] {
      assert Carries(self, outputs[0]);
    }
  }

  /** The other reading: a `val` is evaluated where it is used, so an unused register is not
      needed and a mature spend does not look for `cancelOut`. */
  predicate RequestAcceptsOnDemand(self: Box, spend: Spend) {
    && |self.tokens| >= 1 && self.r6.Some? && self.r7.Some?
    && (|| spend.height >= self.r6.value + self.r7.value
        || (&& self.r4.Some?
            && var out := CancelOut(self, spend.outputs);
            && out.Some? && out.value.script == self.r4.value))
  }

  /** On a complete request box the readings differ exactly on mature spends in which no
      output holds the tokens: those that burn them, as an execution should. */
  lemma ReadingsDifferIff(self: Box, spend: Spend)
    requires IsRequest(self)
    ensures RequestAccepts(self, spend) ==> RequestAcceptsOnDemand(self, spend)
    ensures RequestAcceptsOnDemand(self, spend) && !RequestAccepts(self, spend)
            <==> IsMature(self, spend.height) && forall b :: b in spend.outputs ==> !Carries(self, b)
  {
  }

  /** How much of a token a list of boxes holds. */
  function TokenTotal(boxes: seq<Box>, id: nat): nat {
    if boxes == [] then 0 else Amount(boxes[0].tokens, id) + TokenTotal(boxes[1..], id)
  }

  lemma {:induction false} TotalConcat(a: seq<Box>, b: seq<Box>, id: nat)
    ensures TokenTotal(a + b, id) == TokenTotal(a, id) + TokenTotal(b, id)
    decreases |a|
  {
    if a == [] {
      assert a + b == b;
    } else {
      assert (a + b)[1..] == a[1..] + b;
      TotalConcat(a[1..], b, id);
    }
  }

  lemma {:induction false} TotalCovers(boxes: seq<Box>, b: Box, id: nat)
    requires b in boxes
    ensures TokenTotal(boxes, id) >= Amount(b.tokens, id)
  {
    if b != boxes[0] {
      TotalCovers(boxes[1..], b, id);
    }
  }

  /** Whatever the path, an accepted spend burns none of the locked tokens. */
  lemma RequestTokensSurvive(self: Box, spend: Spend)
    requires RequestAccepts(self, spend)
    ensures TokenTotal(spend.outputs, self.tokens[0].id) >= self.tokens[0].amount
  {
    var out := CancelOut(self, spend.outputs).value;
    TotalCovers(spend.outputs, out, self.tokens[0].id);
  }

  /** Before the cooldown has passed, the locked tokens can only go back to their holder. */
  lemma EarlySpendReturnsTokens(self: Box, spend: Spend)
    requires RequestAccepts(self, spend) && !IsMature(self, spend.height)
    ensures exists b :: b in spend.outputs && b.script == self.r4.value && Carries(self, b)
  {
    var out := CancelOut(self, spend.outputs).value;
    assert out in spend.outputs;
  }

  // ----- The lifecycle against the guard -----

  /** The pool box of a lifecycle state. */
  function PoolBox(
    p: L.Pool, boxId: nat, nft: nat, lp: nat, script: seq<Byte>, house: seq<Byte>, edge: int
  ): Box {
    Box(boxId, p.value, [Token(nft, 1), Token(lp, p.supply)], script,
        Some(house), Some(p.minDeposit), Some(p.cooldown), Some(edge))
  }

  /** The box `request_withdrawal` asks for; `holder` is the content of R4. */
  function RequestBox(r: L.Request, boxId: nat, lp: nat, script: seq<Byte>, holder: seq<Byte>): Box {
    Box(boxId, if r.erg / 10 > 1_000_000 then r.erg / 10 else 1_000_000, [Token(lp, r.lp)], script,
        Some(holder), Some(r.erg), Some(r.height), Some(r.cooldown))
  }

  lemma FirstOutput(self: Box, out: Box, rest: seq<Box>)
    requires Continues(self, out)
    ensures PoolOut(self, [out] + rest) == Some(out)
  {
  }

  /** A spend that carries the pool box from one lifecycle state to the next by executing a
      request passes the pool's guard exactly when it pays something and leaves the minimum
      deposit, which the backend's floor guarantees when it is at least that. The request's
      guard, read strictly, also wants the payee to hold the tokens that should be burned. */
  lemma ContinuedExecutionAcceptedIff(
      p: L.Pool, id: nat, ids: (nat, nat, nat), nft: nat, lp: nat, script: seq<Byte>,
      requestScript: seq<Byte>, holder: seq<Byte>, house: seq<Byte>, edge: int, payee: Box)
    requires L.Valid(p) && L.ExecuteStep(p, id).Ok? && ids.0 != ids.1 && nft != lp
    ensures
      var r := p.pending[id];
      var q := L.ExecuteStep(p, id).value;
      var self := PoolBox(p, ids.0, nft, lp, script, house, edge);
      var out := PoolBox(q, ids.2, nft, lp, script, house, edge);
      var request := RequestBox(r, ids.1, lp, requestScript, holder);
      var spend := Spend([self, request], [out, payee], p.height, false);
      && (Accepts(self, spend) <==> L.Payment(p, r) > 0 && q.value >= p.minDeposit)
      && (p.minPool >= p.minDeposit ==> (Accepts(self, spend) <==> L.Payment(p, r) > 0))
      && (RequestAccepts(request, spend) <==> Carries(request, payee))
      && RequestAcceptsOnDemand(request, spend)
  {
    var r := p.pending[id];
    var q := L.ExecuteStep(p, id).value;
    var self := PoolBox(p, ids.0, nft, lp, script, house, edge);
    var out := PoolBox(q, ids.2, nft, lp, script, house, edge);
    var request := RequestBox(r, ids.1, lp, requestScript, holder);
    var spend := Spend([self, request], [out, payee], p.height, false);
    FirstOutput(self, out, [payee]);
    assert spend.outputs == [out] + [payee];
    L.ExecutionFair(p, id);
    assert r.lp > 0;
    assert OpensWithdrawal(self, spend.inputs[1], spend.height);
    assert payee in spend.outputs;
  }

  /** A spend that carries the pool box to the state after an accepted deposit takes the
      deposit path. */
  lemma ContinuedDepositAccepted(
      p: L.Pool, amount: nat, ids: (nat, nat), nft: nat, lp: nat, script: seq<Byte>,
      house: seq<Byte>, edge: int, inputs: seq<Box>, rest: seq<Box>)
    requires L.DepositStep(p, amount).Ok?
    ensures
      var self := PoolBox(p, ids.0, nft, lp, script, house, edge);
      var out := PoolBox(L.DepositStep(p, amount).value, ids.1, nft, lp, script, house, edge);
      TakesPath(self, Spend(inputs, [out] + rest, p.height, false), DepositPath)
  {
    var self := PoolBox(p, ids.0, nft, lp, script, house, edge);
    var out := PoolBox(L.DepositStep(p, amount).value, ids.1, nft, lp, script, house, edge);
    FirstOutput(self, out, rest);
  }
}
