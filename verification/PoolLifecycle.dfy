/** The liquidity pool as a state machine: deposits, withdrawal requests that freeze an ERG
    amount, their execution or cancellation, house profits and parameter updates. The pool
    loses value only to withdrawals. Amounts and refusals are the routes'; that a deposit or
    an execution also spends and recreates the pool box is the intended protocol. */
module PoolLifecycle {
  import opened Wrappers
  import opened Arithmetic
  import opened PoolMath

  /** A WithdrawRequest box: locked LP tokens and the registers R5 to R7. */
  datatype Request = Request(lp: nat, erg: nat, height: nat, cooldown: nat)

  /** `circulating` counts the LP tokens in holders' wallets. */
  datatype Pool = Pool(
    value: nat, supply: nat, circulating: nat,
    pending: map<nat, Request>, nextId: nat,
    height: nat, cooldown: nat, minDeposit: nat, minPool: nat)

  datatype Action =
    | Deposit(amount: nat)
    | RequestWithdrawal(lp: nat)
    | Execute(id: nat)
    | Cancel(id: nat)
    | Collect(profit: nat)
    | Update(cooldown: nat, minDeposit: nat)
    | Mine(blocks: nat)

  datatype Refusal =
    | NotPositive | BelowMinimum | NoShares
    | ExceedsSupply | TokensNotHeld | UnknownRequest | NotMature(remaining: int)

  // ----- Steps -----

  function DepositStep(p: Pool, amount: nat): Result<Pool, Refusal> {
    var shares := DepositShares(amount, p.value, p.supply);
    if amount == 0 then Err(NotPositive)
    else if amount < p.minDeposit then Err(BelowMinimum)
    else if shares == 0 then Err(NoShares)
    else Ok(p.(value := p.value + amount, supply := p.supply + shares, circulating := p.circulating + shares))
  }

  /** The amount is fixed now, from the value per share and the floor of this moment. */
  function RequestStep(p: Pool, lp: nat): Result<Pool, Refusal> {
    if lp == 0 then Err(NotPositive)
    else if lp > p.supply then Err(ExceedsSupply)
    else if lp > p.circulating then Err(TokensNotHeld)
    else
      var erg := EstimateWithdraw(lp, p.value, p.supply, p.minPool).erg;
      Ok(p.(circulating := p.circulating - lp,
            pending := p.pending[p.nextId := Request(lp, erg, p.height, p.cooldown)],
            nextId := p.nextId + 1))
  }

  /** What an execution pays now: the frozen amount, capped again by the floor. */
  function Payment(p: Pool, r: Request): nat {
    Min(r.erg, MaxWithdraw(p.value, p.minPool))
  }

  /** The supply test stands for the burn itself; no reachable request fails it. */
  function ExecuteStep(p: Pool, id: nat): Result<Pool, Refusal> {
    if id !in p.pending then Err(UnknownRequest)
    else
      var r := p.pending[id];
      if p.height < r.height + r.cooldown then Err(NotMature(r.height + r.cooldown - p.height))
      else if r.lp > p.supply then Err(ExceedsSupply)
      else Ok(p.(value := p.value - Payment(p, r), supply := p.supply - r.lp, pending := p.pending - {id}))
  }

  function CancelStep(p: Pool, id: nat): Result<Pool, Refusal> {
    if id !in p.pending then Err(UnknownRequest)
    else Ok(p.(circulating := p.circulating + p.pending[id].lp, pending := p.pending - {id}))
  }

  function Step(p: Pool, a: Action): Result<Pool, Refusal> {
    match a
    case Deposit(amount) => DepositStep(p, amount)
    case RequestWithdrawal(lp) => RequestStep(p, lp)
    case Execute(id) => ExecuteStep(p, id)
    case Cancel(id) => CancelStep(p, id)
    case Collect(profit) => if profit == 0 then Err(NotPositive) else Ok(p.(value := p.value + profit))
    case Update(cooldown, minDeposit) => Ok(p.(cooldown := cooldown, minDeposit := minDeposit))
    case Mine(blocks) => Ok(p.(height := p.height + blocks))
  }

  /** A refused action leaves the pool as it was. */
  function After(p: Pool, a: Action): Pool {
    var r := Step(p, a);
    if r.Ok? then r.value else p
  }

  function Run(p: Pool, actions: seq<Action>): Pool
    decreases |actions|
  {
    if actions == [] then p else Run(After(p, actions[0]), actions[1..])
  }

  // ----- Invariant -----

  /** LP tokens locked in the requests numbered below n. */
  function Locked(pending: map<nat, Request>, n: nat): nat {
    if n == 0 then 0
    else Locked(pending, n - 1) + (if n - 1 in pending then pending[n - 1].lp else 0)
  }

  /** The frozen amount is no more than the request's shares are worth now. */
  predicate Covered(p: Pool, r: Request) {
    r.erg * p.supply <= r.lp * p.value
  }

  ghost predicate Valid(p: Pool) {
    && p.circulating + Locked(p.pending, p.nextId) == p.supply
    && (forall id :: id in p.pending ==> id < p.nextId && p.pending[id].lp > 0 && Covered(p, p.pending[id]))
  }

  function Empty(height: nat, cooldown: nat, minDeposit: nat, minPool: nat): Pool {
    Pool(0, 0, 0, map[], 0, height, cooldown, minDeposit, minPool)
  }

  lemma EmptyValid(height: nat, cooldown: nat, minDeposit: nat, minPool: nat)
    ensures Valid(Empty(height, cooldown, minDeposit, minPool))
  {
  }

  lemma {:induction false} LockedOutside(pending: map<nat, Request>, id: nat, r: Request, n: nat)
    requires id >= n
    ensures Locked(pending[id := r], n) == Locked(pending, n)
  {
    if n > 0 {
      LockedOutside(pending, id, r, n - 1);
    }
  }

  lemma {:induction false} LockedWithout(pending: map<nat, Request>, id: nat, n: nat)
    requires id in pending
    ensures Locked(pending - {id}, n) == Locked(pending, n) - (if id < n then pending[id].lp else 0)
  {
    if n > 0 {
      LockedWithout(pending, id, n - 1);
    }
  }

  lemma {:induction false} LockedCovers(pending: map<nat, Request>, id: nat, n: nat)
    requires id in pending && id < n
    ensures pending[id].lp <= Locked(pending, n)
  {
    if id < n - 1 {
      LockedCovers(pending, id, n - 1);
    }
  }

  // ----- One step -----

  /** Requests stay covered when value per share does not fall. */
  lemma AllStillCovered(p: Pool, q: Pool)
    requires Valid(p) && NotBelow(q.value, q.supply, p.value, p.supply)
    requires p.supply > 0 && q.pending.Keys <= p.pending.Keys
    requires forall id :: id in q.pending ==> q.pending[id] == p.pending[id]
    ensures forall id :: id in q.pending ==> Covered(q, q.pending[id])
  {
    forall id | id in q.pending
      ensures Covered(q, q.pending[id])
    {
      var r := q.pending[id];
      assert Covered(p, p.pending[id]);
      StillCovered(r.erg, r.lp, p.value, p.supply, q.value, q.supply);
    }
  }

  /** With no supply nothing can be locked. */
  lemma NoSupplyNoRequests(p: Pool)
    requires Valid(p) && p.supply == 0
    ensures p.pending == map[]
  {
    forall id | id in p.pending
      ensures false
    {
      LockedCovers(p.pending, id, p.nextId);
    }
  }

  lemma DepositValid(p: Pool, amount: nat)
    requires Valid(p) && DepositStep(p, amount).Ok?
    ensures Valid(DepositStep(p, amount).value)
  {
    var q := DepositStep(p, amount).value;
    if p.supply == 0 {
      NoSupplyNoRequests(p);
    } else {
      DepositKeepsPrice(amount, p.value, p.supply);
      AllStillCovered(p, q);
    }
  }

  lemma RequestValid(p: Pool, lp: nat)
    requires Valid(p) && RequestStep(p, lp).Ok?
    ensures Valid(RequestStep(p, lp).value)
  {
    var q := RequestStep(p, lp).value;
    var r := q.pending[p.nextId];
    LockedOutside(p.pending, p.nextId, r, p.nextId);
    WithdrawCovered(lp, p.value, p.supply);
    Scale(r.erg, WithdrawErg(lp, p.value, p.supply), p.supply);
    forall id | id in q.pending
      ensures id < q.nextId && q.pending[id].lp > 0 && Covered(q, q.pending[id])
    {
      if id != p.nextId {
        assert Covered(p, p.pending[id]);
      }
    }
  }

  /** An execution never pays more than the burned shares are worth, never finds the supply
      too small, and keeps the floor. */
  lemma ExecutionFair(p: Pool, id: nat)
    requires Valid(p) && id in p.pending
    ensures
      var r := p.pending[id];
      var paid := Payment(p, r);
      && r.lp <= p.supply
      && paid <= p.value
      && paid * p.supply <= r.lp * p.value
      && NotBelow(p.value - paid, p.supply - r.lp, p.value, p.supply)
      && p.value - paid >= Min(p.value, p.minPool)
  {
    var r := p.pending[id];
    LockedCovers(p.pending, id, p.nextId);
    assert Covered(p, r);
    Scale(Payment(p, r), r.erg, p.supply);
    PayoutKeepsPrice(Payment(p, r), r.lp, p.value, p.supply);
  }

  lemma ExecuteValid(p: Pool, id: nat)
    requires Valid(p) && ExecuteStep(p, id).Ok?
    ensures Valid(ExecuteStep(p, id).value)
  {
    var q := ExecuteStep(p, id).value;
    ExecutionFair(p, id);
    LockedWithout(p.pending, id, p.nextId);
    LockedCovers(p.pending, id, p.nextId);
    AllStillCovered(p, q);
  }

  lemma CancelValid(p: Pool, id: nat)
    requires Valid(p) && CancelStep(p, id).Ok?
    ensures Valid(CancelStep(p, id).value)
  {
    LockedWithout(p.pending, id, p.nextId);
    LockedCovers(p.pending, id, p.nextId);
    AllStillCovered(p, CancelStep(p, id).value);
  }

  lemma CollectValid(p: Pool, profit: nat)
    requires Valid(p)
    ensures Valid(p.(value := p.value + profit))
  {
    if p.supply == 0 {
      NoSupplyNoRequests(p);
    } else {
      Scale(p.value, p.value + profit, p.supply);
      AllStillCovered(p, p.(value := p.value + profit));
    }
  }

  /** Every action keeps circulating plus locked tokens equal to the supply and every
      pending request covered. */
  lemma AfterValid(p: Pool, a: Action)
    requires Valid(p)
    ensures Valid(After(p, a))
  {
    if Step(p, a).Ok? {
      match a
      case Deposit(amount) => DepositValid(p, amount);
      case RequestWithdrawal(lp) => RequestValid(p, lp);
      case Execute(id) => ExecuteValid(p, id);
      case Cancel(id) => CancelValid(p, id);
      case Collect(profit) => CollectValid(p, profit);
      case Update(_, _) =>
        assert forall id :: id in p.pending ==> Covered(p, p.pending[id]);
      case Mine(_) =>
        assert forall id :: id in p.pending ==> Covered(p, p.pending[id]);
    }
  }

  /** An execution of a pending request in a reachable state is refused only for time. */
  lemma ExecuteRefusedOnlyEarly(p: Pool, id: nat)
    requires Valid(p) && id in p.pending
    ensures ExecuteStep(p, id).Ok? <==> p.height >= p.pending[id].height + p.pending[id].cooldown
  {
    ExecutionFair(p, id);
  }

  /** Value per share does not fall in a step, except exactly when a first deposit meets
      value left in a pool without shares. */
  lemma StepPriceIff(p: Pool, a: Action)
    requires Valid(p)
    ensures
      var q := After(p, a);
      NotBelow(q.value, q.supply, p.value, p.supply)
      <==> !(a.Deposit? && Step(p, a).Ok? && p.supply == 0 && p.value > 0)
  {
    var q := After(p, a);
    if Step(p, a).Ok? {
      match a
      case Deposit(amount) =>
        if p.supply > 0 {
          DepositKeepsPrice(amount, p.value, p.supply);
        } else {
          Scale(1, q.supply, p.value);
        }
      case Execute(id) => ExecutionFair(p, id);
      case Collect(profit) => Scale(p.value, p.value + profit, p.supply);
      case _ =>
    }
  }

  // ----- Runs -----

  lemma {:induction false} RunValid(p: Pool, actions: seq<Action>)
    requires Valid(p)
    ensures Valid(Run(p, actions))
    decreases |actions|
  {
    if actions != [] {
      AfterValid(p, actions[0]);
      RunValid(After(p, actions[0]), actions[1..]);
    }
  }

  /** Shares are outstanding in every state of the run before the last. */
  predicate SupplyStays(p: Pool, actions: seq<Action>)
    decreases |actions|
  {
    actions == [] || (p.supply > 0 && SupplyStays(After(p, actions[0]), actions[1..]))
  }

  /** While shares stay outstanding, value per share never falls from the first state of a
      run to its last. Any two states of a run are the ends of a run between them. */
  lemma {:induction false} RunPrice(p: Pool, actions: seq<Action>)
    requires Valid(p) && SupplyStays(p, actions)
    ensures
      var q := Run(p, actions);
      NotBelow(q.value, q.supply, p.value, p.supply)
    decreases |actions|
  {
    if actions != [] {
      var mid := After(p, actions[0]);
      AfterValid(p, actions[0]);
      StepPriceIff(p, actions[0]);
      RunPrice(mid, actions[1..]);
      var q := Run(mid, actions[1..]);
      if actions[1..] != [] {
        NotBelowTransitive(q.value, q.supply, mid.value, mid.supply, p.value, p.supply);
      }
    }
  }

  lemma {:induction false} RunSplit(p: Pool, first: seq<Action>, second: seq<Action>)
    ensures Run(p, first + second) == Run(Run(p, first), second)
    ensures SupplyStays(p, first + second) <==>
              SupplyStays(p, first) && SupplyStays(Run(p, first), second)
    decreases |first|
  {
    if first == [] {
      assert first + second == second;
    } else {
      assert (first + second)[1..] == first[1..] + second;
      RunSplit(After(p, first[0]), first[1..], second);
    }
  }

  /** The same between any earlier and any later state of one run from the empty pool. */
  lemma ReachablePrice(start: Pool, actions: seq<Action>, i: nat, j: nat)
    requires Valid(start) && i <= j <= |actions|
    requires SupplyStays(Run(start, actions[..i]), actions[i..j])
    ensures
      var early, late := Run(start, actions[..i]), Run(start, actions[..j]);
      NotBelow(late.value, late.supply, early.value, early.supply)
  {
    assert actions[..j] == actions[..i] + actions[i..j];
    RunSplit(start, actions[..i], actions[i..j]);
    RunValid(start, actions[..i]);
    RunPrice(Run(start, actions[..i]), actions[i..j]);
  }

  lemma AfterFloor(p: Pool, a: Action)
    requires Valid(p)
    ensures After(p, a).minPool == p.minPool
    ensures After(p, a).value >= Min(p.value, p.minPool)
  {
    if a.Execute? && a.id in p.pending {
      ExecutionFair(p, a.id);
    }
  }

  /** No run takes the pool below its floor, or lower than it already was. */
  lemma {:induction false} RunFloor(p: Pool, actions: seq<Action>)
    requires Valid(p)
    ensures Run(p, actions).minPool == p.minPool
    ensures Run(p, actions).value >= Min(p.value, p.minPool)
    decreases |actions|
  {
    if actions != [] {
      AfterValid(p, actions[0]);
      AfterFloor(p, actions[0]);
      RunFloor(After(p, actions[0]), actions[1..]);
    }
  }

  // ----- The life of a request -----

  lemma AfterFrozen(p: Pool, a: Action, id: nat)
    requires Valid(p) && id < p.nextId
    ensures After(p, a).nextId >= p.nextId && After(p, a).height >= p.height
    ensures id in After(p, a).pending ==> id in p.pending && After(p, a).pending[id] == p.pending[id]
  {
  }

  /** A request never changes while it is pending and never comes back once it has left. */
  lemma {:induction false} RunFrozen(p: Pool, actions: seq<Action>, id: nat)
    requires Valid(p) && id < p.nextId
    ensures
      var q := Run(p, actions);
      && q.nextId >= p.nextId && q.height >= p.height
      && (id in q.pending ==> id in p.pending && q.pending[id] == p.pending[id])
    decreases |actions|
  {
    if actions != [] {
      AfterValid(p, actions[0]);
      AfterFrozen(p, actions[0], id);
      RunFrozen(After(p, actions[0]), actions[1..], id);
    }
  }

  /** The request made by `RequestWithdrawal(lp)` in state p: whatever happens in between,
      parameter updates included, it is executed only after the cooldown in force when it
      was made, pays the amount frozen then as far as the floor allows, and is never executed
      a second time. */
  lemma RequestLife(p: Pool, lp: nat, actions: seq<Action>, more: seq<Action>)
    requires Valid(p) && Step(p, RequestWithdrawal(lp)).Ok?
    requires Step(Run(After(p, RequestWithdrawal(lp)), actions), Execute(p.nextId)).Ok?
    ensures
      var made := After(p, RequestWithdrawal(lp));
      var q := Run(made, actions);
      var done := After(q, Execute(p.nextId));
      && q.height >= p.height + p.cooldown
      && q.supply - done.supply == lp
      && p.nextId in made.pending
      && q.value - done.value == Min(made.pending[p.nextId].erg, MaxWithdraw(q.value, q.minPool))
      && p.nextId !in Run(done, more).pending
  {
    var made := After(p, RequestWithdrawal(lp));
    var q := Run(made, actions);
    AfterValid(p, RequestWithdrawal(lp));
    RunValid(made, actions);
    RunFrozen(made, actions, p.nextId);
    ExecutionFair(q, p.nextId);
    var done := After(q, Execute(p.nextId));
    AfterValid(q, Execute(p.nextId));
    RunFrozen(done, more, p.nextId);
  }

  /** As intended, cancelling gives the tokens back and costs the pool nothing. What the
      route builds instead is in `PoolRoutes`. */
  lemma CancelUndoesRequest(p: Pool, lp: nat)
    requires Valid(p) && Step(p, RequestWithdrawal(lp)).Ok?
    ensures
      var q := After(After(p, RequestWithdrawal(lp)), Cancel(p.nextId));
      q == p.(nextId := p.nextId + 1)
  {
    var made := After(p, RequestWithdrawal(lp));
    assert p.nextId !in p.pending;
    assert made.pending - {p.nextId} == p.pending;
  }
}
