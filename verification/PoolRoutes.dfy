/** The transactions the withdrawal and deposit routes build, against the guards. A route
    names a raw input and one payment; the node's wallet adds inputs of its own and change.
    The payment comes first among the outputs; the rest is arbitrary. */
module PoolRoutes {
  import opened Wrappers
  import opened Bits
  import opened Vlq
  import opened IntCodec
  import opened CollByte
  import opened PoolScript
  import L = PoolLifecycle
  import PoolMath
  import PoolSteps

  // ----- Registers -----

  /** R4 to R7 of a WithdrawRequest box, as `request_withdrawal` writes them. */
  datatype Registers = Registers(r4: seq<Byte>, r5: seq<Byte>, r6: seq<Byte>, r7: seq<Byte>)

  /** `tree` is the holder's ErgoTree. */
  function WriteRegisters(tree: seq<Byte>, r: L.Request): Registers {
    Registers(SerializeTagged(tree), LpSerializeLong(r.erg), LpSerializeInt(r.height), LpSerializeInt(r.cooldown))
  }

  /** The amount, height and cooldown `execute_withdrawal` works with. */
  function ReadRegisters(g: Registers): (int, int, int) {
    (LpExtractInt(g.r5), LpExtractInt(g.r6), LpExtractInt(g.r7))
  }

  /** What both routes take for the holder's ErgoTree: the register's text, not decoded. */
  function HolderTree(g: Registers): seq<Byte> {
    g.r4
  }

  /** R5 to R7 carry the request, amounts in 64 bits and heights in 32 as their types hold.
      R4 carries the holder's tree, but only to a reader that decodes it. */
  lemma RegistersCarryRequest(tree: seq<Byte>, r: L.Request)
    requires IsInt64(r.erg) && IsInt32(r.height) && IsInt32(r.cooldown)
    ensures
      var g := WriteRegisters(tree, r);
      && ReadRegisters(g) == (r.erg, r.height, r.cooldown)
      && BackendDeserialize(g.r4) == Ok(tree)
      && HolderTree(g) != tree
  {
    LongReadBack(r.erg);
    IntReadBack(r.height);
    IntReadBack(r.cooldown);
    BackendRoundTrip(CollByteValue(tree));
    TextIsNotContent(tree);
  }

  lemma LongReadBack(v: int)
    requires IsInt64(v)
    ensures LpExtractInt(LpSerializeLong(v)) == v
  {
    LongEncodersAgree(v);
    LongDecodersInvert(v, []);
    assert LpSerializeLong(v) + [] == LpSerializeLong(v);
  }

  lemma IntReadBack(v: int)
    requires IsInt32(v)
    ensures LpExtractInt(LpSerializeInt(v)) == v
  {
    IntEncodersAgree(v);
    IntDecodersInvert(v, []);
    assert LpSerializeInt(v) + [] == LpSerializeInt(v);
  }

  /** A register's text is longer than what it holds. */
  lemma TextIsNotContent(tree: seq<Byte>)
    ensures SerializeTagged(tree) != tree && SerializeUntagged(tree) != tree
  {
    assert |SerializeTagged(tree)| > |tree| && |SerializeUntagged(tree)| > |tree|;
  }

  // ----- The payments -----

  function Payment(boxId: nat, value: nat, tokens: seq<Token>, script: seq<Byte>): Box {
    Box(boxId, value, tokens, script, None, None, None, None)
  }

  /** `build_deposit_tx`: the deposit and its shares, both to the depositor's own address. */
  function DepositRoute(p: L.Pool, amount: nat, address: seq<Byte>, lp: Option<nat>, boxId: nat)
    : Result<Box, L.Refusal>
  {
    var shares := PoolMath.DepositShares(amount, p.value, p.supply);
    if amount == 0 then Err(L.NotPositive)
    else if amount < p.minDeposit then Err(L.BelowMinimum)
    else if shares == 0 then Err(L.NoShares)
    else Ok(Payment(boxId, amount, if lp.Some? then [Token(lp.value, shares)] else [], address))
  }

  /** `execute_withdrawal`: the ERG, to the text of R4. */
  function ExecuteRoute(p: L.Pool, r: L.Request, tree: seq<Byte>, boxId: nat): Result<Box, L.Refusal> {
    if p.height < r.height + r.cooldown then Err(L.NotMature(r.height + r.cooldown - p.height))
    else Ok(Payment(boxId, L.Payment(p, r), [], HolderTree(WriteRegisters(tree, r))))
  }

  /** `cancel_withdrawal`: the tokens, to the text of R4. */
  function CancelRoute(r: L.Request, tree: seq<Byte>, lp: nat, boxId: nat): Box {
    Payment(boxId, 1_000_000, [Token(lp, r.lp)], HolderTree(WriteRegisters(tree, r)))
  }

  /** What the deposit route pays: the deposit and the most shares it is worth, both to the
      depositor's own address, and no other token. */
  lemma DepositRouteMeaning(p: L.Pool, amount: nat, address: seq<Byte>, lp: Option<nat>, boxId: nat)
    requires DepositRoute(p, amount, address, lp, boxId).Ok?
    ensures
      var b := DepositRoute(p, amount, address, lp, boxId).value;
      && b.value == amount && b.script == address
      && (lp.None? ==> b.tokens == [])
      && (lp.Some? ==> && |b.tokens| == 1 && b.tokens[0].id == lp.value
                       && var shares := b.tokens[0].amount;
                       if p.supply == 0 || p.value == 0 then shares == amount
                       else shares * p.value <= amount * p.supply < (shares + 1) * p.value)
  {
    PoolMath.DepositSharesMeaning(amount, p.value, p.supply);
  }

  /** What the execution route pays, once the cooldown has passed: the largest amount up to
      the frozen one that leaves the floor, and no token, to the text of R4. */
  lemma ExecuteRouteMeaning(p: L.Pool, r: L.Request, tree: seq<Byte>, boxId: nat)
    ensures ExecuteRoute(p, r, tree, boxId).Ok? <==> p.height >= r.height + r.cooldown
    ensures ExecuteRoute(p, r, tree, boxId).Err? ==>
              ExecuteRoute(p, r, tree, boxId) == Err(L.NotMature(r.height + r.cooldown - p.height))
    ensures ExecuteRoute(p, r, tree, boxId).Ok? ==>
              var b := ExecuteRoute(p, r, tree, boxId).value;
              && b.tokens == [] && PoolSteps.IsPayment(r.erg, b.value, p.value, p.minPool)
              && b.script == [0x0e, 1] + EncodeVlq(|tree|) + tree
  {
  }

  /** What the cancellation route pays: 0.001 ERG and exactly the locked tokens, to the text
      of R4. */
  lemma CancelRouteMeaning(r: L.Request, tree: seq<Byte>, lp: nat, boxId: nat)
    ensures
      var b := CancelRoute(r, tree, lp, boxId);
      && b.value == 1_000_000 && b.tokens == [Token(lp, r.lp)]
      && b.script == [0x0e, 1] + EncodeVlq(|tree|) + tree
  {
  }

  /** The request box is worth a tenth of the frozen amount, at least 0.001 ERG, and holds
      the tokens and the request. */
  lemma RequestBoxMeaning(r: L.Request, boxId: nat, lp: nat, script: seq<Byte>, holder: seq<Byte>)
    ensures
      var b := RequestBox(r, boxId, lp, script, holder);
      && b.value >= 1_000_000 && 10 * b.value + 10 > r.erg
      && (b.value == 1_000_000 || 10 * b.value <= r.erg)
      && b.tokens == [Token(lp, r.lp)] && b.script == script
      && b.r4 == Some(holder) && b.r5 == Some(r.erg) && b.r6 == Some(r.height) && b.r7 == Some(r.cooldown)
  {
  }

  // ----- The pool's guard -----

  /** A payment of at most one token cannot continue a pool: to the pool's guard it is as if
      it were not there. */
  lemma PaymentIgnored(self: Box, inputs: seq<Box>, payment: Box, change: seq<Box>, height: int, signs: bool)
    requires |payment.tokens| < 2
    ensures Accepts(self, Spend(inputs, [payment] + change, height, signs))
            <==> Accepts(self, Spend(inputs, change, height, signs))
    ensures (forall b :: b in change ==> !Continues(self, b)) ==>
              !Accepts(self, Spend(inputs, [payment] + change, height, signs))
  {
    assert ([payment] + change)[1..] == change;
    assert PoolOut(self, [payment] + change) == PoolOut(self, change);
    SameForPool(self, Spend(inputs, [payment] + change, height, signs), Spend(inputs, change, height, signs));
  }

  lemma SameForPool(self: Box, a: Spend, b: Spend)
    requires a.inputs == b.inputs && a.height == b.height && a.houseSigns == b.houseSigns
    requires PoolOut(self, a.outputs) == PoolOut(self, b.outputs)
    ensures Accepts(self, a) <==> Accepts(self, b)
  {
  }

  /** A deposit as built is no deposit to any pool: its payment counts for nothing with the
      pool's guard, and the shares come out of the inputs, since only the first input's id
      can be minted. */
  lemma DepositRouteMintsNothing(
      p: L.Pool, amount: nat, address: seq<Byte>, lp: nat, boxId: nat,
      self: Box, inputs: seq<Box>, change: seq<Box>, height: int, signs: bool)
    requires DepositRoute(p, amount, address, Some(lp), boxId).Ok?
    ensures
      var spend := Spend(inputs, [DepositRoute(p, amount, address, Some(lp), boxId).value] + change, height, signs);
      && (Accepts(self, spend) <==> Accepts(self, Spend(inputs, change, height, signs)))
      && (Conserves(spend) && inputs != [] && lp != inputs[0].boxId ==>
            TokenTotal(inputs, lp) >= PoolMath.DepositShares(amount, p.value, p.supply))
  {
    var payment := DepositRoute(p, amount, address, Some(lp), boxId).value;
    PaymentIgnored(self, inputs, payment, change, height, signs);
    TotalCovers([payment] + change, payment, lp);
    assert payment.tokens[1..] == [];
  }

  /** The ledger's rule: no token but the first input's id grows in a transaction. */
  ghost predicate Conserves(spend: Spend) {
    forall id :: spend.inputs != [] && id != spend.inputs[0].boxId ==>
      TokenTotal(spend.outputs, id) <= TokenTotal(spend.inputs, id)
  }

  /** The route refuses what the lifecycle refuses, with the same error. */
  lemma DepositRouteRefusesIff(p: L.Pool, amount: nat, address: seq<Byte>, lp: Option<nat>, boxId: nat)
    ensures DepositRoute(p, amount, address, lp, boxId).Ok? <==> L.DepositStep(p, amount).Ok?
    ensures L.DepositStep(p, amount).Err? ==>
              DepositRoute(p, amount, address, lp, boxId) == Err(L.DepositStep(p, amount).error)
  {
  }

  // ----- The request's guard -----

  /** An execution as built spends no pool box and its payment counts for nothing with the
      pool's guard. The request's guard, read strictly, passes it exactly when some change
      output takes the tokens over, so never with the tokens burned; read on demand, always.
      The payment never goes to the holder's tree. */
  lemma ExecuteRouteAcceptedIff(
      p: L.Pool, r: L.Request, tree: seq<Byte>, lp: nat, requestScript: seq<Byte>, ids: (nat, nat),
      wallet: seq<Box>, change: seq<Box>, self: Box, signs: bool)
    requires ExecuteRoute(p, r, tree, ids.1).Ok?
    ensures
      var request := RequestBox(r, ids.0, lp, requestScript, tree);
      var payment := ExecuteRoute(p, r, tree, ids.1).value;
      var spend := Spend([request] + wallet, [payment] + change, p.height, signs);
      && (RequestAccepts(request, spend) <==> exists b :: b in change && Carries(request, b))
      && (RequestAccepts(request, spend) ==> TokenTotal(change, lp) >= r.lp)
      && RequestAcceptsOnDemand(request, spend)
      && (Accepts(self, spend) <==> Accepts(self, Spend([request] + wallet, change, p.height, signs)))
      && payment.script != tree
  {
    var request := RequestBox(r, ids.0, lp, requestScript, tree);
    var payment := ExecuteRoute(p, r, tree, ids.1).value;
    var spend := Spend([request] + wallet, [payment] + change, p.height, signs);
    assert spend.outputs[1..] == change;
    assert CancelOut(request, spend.outputs) == CancelOut(request, change);
    if RequestAccepts(request, spend) {
      RequestTokensSurvive(request, spend);
    }
    PaymentIgnored(self, [request] + wallet, payment, change, p.height, signs);
    TextIsNotContent(tree);
  }

  /** How much of a token the boxes under one script hold. */
  function HeldBy(boxes: seq<Box>, script: seq<Byte>, id: nat): nat {
    if boxes == [] then 0
    else (if boxes[0].script == script then Amount(boxes[0].tokens, id) else 0) + HeldBy(boxes[1..], script, id)
  }

  lemma FirstHeld(payment: Box, change: seq<Box>, script: seq<Byte>, id: nat, n: nat)
    requires payment.tokens == [Token(id, n)]
    ensures HeldBy([payment] + change, script, id)
            == (if payment.script == script then n else 0) + HeldBy(change, script, id)
  {
    var boxes := [payment] + change;
    assert boxes[0] == payment && boxes[1..] == change;
    assert payment.tokens[1..] == [];
    assert Amount(payment.tokens, id) == n;
  }

  /** The guard looks at the first output that carries the tokens. */
  lemma FirstCarries(request: Box, payment: Box, change: seq<Box>, inputs: seq<Box>, height: int, signs: bool)
    requires IsRequest(request) && Carries(request, payment)
    ensures RequestAccepts(request, Spend(inputs, [payment] + change, height, signs))
            <==> IsMature(request, height) || payment.script == request.r4.value
  {
    assert ([payment] + change)[0] == payment;
    assert CancelOut(request, [payment] + change) == Some(payment);
  }

  /** A cancellation as built is accepted exactly once the cooldown has passed, and no sooner;
      and none of the tokens it pays go to the holder's tree. */
  lemma CancelRouteAcceptedIff(
      r: L.Request, tree: seq<Byte>, lp: nat, requestScript: seq<Byte>, ids: (nat, nat),
      wallet: seq<Box>, change: seq<Box>, height: int, signs: bool)
    ensures
      var request := RequestBox(r, ids.0, lp, requestScript, tree);
      var spend := Spend([request] + wallet, [CancelRoute(r, tree, lp, ids.1)] + change, height, signs);
      && (RequestAccepts(request, spend) <==> height >= r.height + r.cooldown)
      && HeldBy(spend.outputs, tree, lp) == HeldBy(change, tree, lp)
  {
    var request := RequestBox(r, ids.0, lp, requestScript, tree);
    var payment := CancelRoute(r, tree, lp, ids.1);
    TextIsNotContent(tree);
    FirstHeld(payment, change, tree, lp, r.lp);
    FirstCarries(request, payment, change, [request] + wallet, height, signs);
  }

  /** Paid to what the register decodes to, it is accepted at any height, and the holder has
      the tokens. */
  lemma DecodedCancelAccepted(
      r: L.Request, tree: seq<Byte>, script: seq<Byte>, lp: nat, requestScript: seq<Byte>, ids: (nat, nat),
      wallet: seq<Box>, change: seq<Box>, height: int, signs: bool)
    requires BackendDeserialize(WriteRegisters(tree, r).r4) == Ok(script)
    ensures
      var request := RequestBox(r, ids.0, lp, requestScript, tree);
      var payment := CancelRoute(r, tree, lp, ids.1).(script := script);
      var spend := Spend([request] + wallet, [payment] + change, height, signs);
      && RequestAccepts(request, spend)
      && HeldBy(spend.outputs, tree, lp) == r.lp + HeldBy(change, tree, lp)
  {
    assert script == tree by {
      BackendRoundTrip(CollByteValue(tree));
    }
    var request := RequestBox(r, ids.0, lp, requestScript, tree);
    var payment := CancelRoute(r, tree, lp, ids.1).(script := tree);
    FirstHeld(payment, change, tree, lp, r.lp);
    FirstCarries(request, payment, change, [request] + wallet, height, signs);
  }
}
