/** What each step of the pool's lifecycle does, in numbers, and the balance of a run. */
module PoolSteps {
  import opened Wrappers
  import opened Arithmetic
  import opened PoolMath
  import opened PoolLifecycle

  /** `paid` is the largest amount up to `frozen` that leaves the floor in the pool. */
  predicate IsPayment(frozen: nat, paid: int, value: nat, minPool: nat) {
    var room := if value > minPool then value - minPool else 0;
    0 <= paid <= frozen && paid <= room && (paid == frozen || paid == room)
  }

  /** A deposit is taken exactly if it is positive, reaches the minimum and pays for a share;
      value grows by it, supply and circulating tokens by the most shares it pays for. */
  lemma DepositMeaning(p: Pool, amount: nat)
    ensures
      var enough := p.supply == 0 || p.value == 0 || amount * p.supply >= p.value;
      && (Step(p, Deposit(amount)).Ok? <==> amount > 0 && amount >= p.minDeposit && enough)
      && (Step(p, Deposit(amount)).Ok? ==>
            var q := After(p, Deposit(amount));
            var shares := q.supply - p.supply;
            && q.value == p.value + amount
            && q.circulating - p.circulating == shares
            && (if p.supply == 0 || p.value == 0 then shares == amount
                else shares * p.value <= amount * p.supply < (shares + 1) * p.value)
            && q == p.(value := q.value, supply := q.supply, circulating := q.circulating))
  {
    DepositSharesMeaning(amount, p.value, p.supply);
    var shares := DepositShares(amount, p.value, p.supply);
    if shares >= 1 {
      Scale(1, shares, p.value);
    }
  }

  /** A request is taken exactly for a positive number of tokens that are held. It freezes
      the largest amount they are worth now that leaves the floor, with the height and the
      cooldown of now, and locks the tokens. */
  lemma RequestMeaning(p: Pool, lp: nat)
    ensures Step(p, RequestWithdrawal(lp)).Ok? <==> 0 < lp <= p.supply && lp <= p.circulating
    ensures Step(p, RequestWithdrawal(lp)).Ok? ==>
              var q := After(p, RequestWithdrawal(lp));
              && p.nextId in q.pending
              && var r := q.pending[p.nextId];
              var room := if p.value > p.minPool then p.value - p.minPool else 0;
              && r.lp == lp && r.height == p.height && r.cooldown == p.cooldown
              && r.erg <= room && r.erg * p.supply <= lp * p.value
              && (r.erg == room || (r.erg + 1) * p.supply > lp * p.value)
              && q.circulating == p.circulating - lp && q.nextId == p.nextId + 1
              && q.pending == p.pending[p.nextId := r]
              && q == p.(circulating := q.circulating, pending := q.pending, nextId := q.nextId)
  {
    if p.supply > 0 {
      EstimateWithdrawMeaning(lp, p.value, p.supply, p.minPool);
    }
  }

  /** An execution in a reachable state pays as `IsPayment` says, burns the request's tokens
      and removes the request; before its time it is refused with the blocks that remain. */
  lemma ExecuteMeaning(p: Pool, id: nat)
    requires Valid(p) && id in p.pending
    ensures
      var r := p.pending[id];
      var wait := r.height + r.cooldown - p.height;
      && (wait > 0 ==> Step(p, Execute(id)) == Err(NotMature(wait)))
      && (wait <= 0 ==> Step(p, Execute(id)).Ok?)
      && (wait <= 0 ==>
            var q := After(p, Execute(id));
            && IsPayment(r.erg, p.value - q.value, p.value, p.minPool)
            && q.supply == p.supply - r.lp && q.pending == p.pending - {id}
            && q == p.(value := q.value, supply := q.supply, pending := q.pending))
  {
    ExecutionFair(p, id);
  }

  /** An unknown request can be neither executed nor cancelled; a profit must be positive;
      an update and a new block are always possible. Each changes its own fields only. */
  lemma OtherStepsMeaning(p: Pool, a: Action)
    ensures (a.Execute? || a.Cancel?) && a.id !in p.pending ==> Step(p, a) == Err(UnknownRequest)
    ensures a.Cancel? && a.id in p.pending ==>
              After(p, a) == p.(circulating := p.circulating + p.pending[a.id].lp, pending := p.pending - {a.id})
    ensures a.Collect? ==> After(p, a) == p.(value := p.value + a.profit)
    ensures a.Collect? ==> (Step(p, a).Ok? <==> a.profit > 0)
    ensures a.Update? ==> After(p, a) == p.(cooldown := a.cooldown, minDeposit := a.minDeposit)
    ensures a.Mine? ==> After(p, a) == p.(height := p.height + a.blocks)
  {
  }

  /** What a request pays, whatever happens in between: the largest amount up to the one that
      was frozen when it was made that leaves the floor in the pool now. */
  lemma RequestPayment(p: Pool, lp: nat, actions: seq<Action>)
    requires Valid(p) && Step(p, RequestWithdrawal(lp)).Ok?
    requires Step(Run(After(p, RequestWithdrawal(lp)), actions), Execute(p.nextId)).Ok?
    ensures
      var made := After(p, RequestWithdrawal(lp));
      var q := Run(made, actions);
      && p.nextId in made.pending
      && IsPayment(made.pending[p.nextId].erg, q.value - After(q, Execute(p.nextId)).value, q.value, q.minPool)
  {
    RequestLife(p, lp, actions, []);
  }

  // ----- The balance of a run -----

  /** What an action brings into the pool and what it takes out. */
  function Inflow(p: Pool, a: Action): nat {
    if Step(p, a).Err? then 0
    else match a
         case Deposit(amount) => amount
         case Collect(profit) => profit
         case _ => 0
  }

  function Outflow(p: Pool, a: Action): nat {
    if Step(p, a).Err? then 0
    else match a
         case Execute(id) => Payment(p, p.pending[id])
         case _ => 0
  }

  function TotalIn(p: Pool, actions: seq<Action>): nat
    decreases |actions|
  {
    if actions == [] then 0 else Inflow(p, actions[0]) + TotalIn(After(p, actions[0]), actions[1..])
  }

  function TotalOut(p: Pool, actions: seq<Action>): nat
    decreases |actions|
  {
    if actions == [] then 0 else Outflow(p, actions[0]) + TotalOut(After(p, actions[0]), actions[1..])
  }

  lemma StepBalance(p: Pool, a: Action)
    requires Valid(p)
    ensures After(p, a).value + Outflow(p, a) == p.value + Inflow(p, a)
  {
    if a.Execute? && a.id in p.pending {
      ExecutionFair(p, a.id);
    }
  }

  /** Over any run the pool's value is what it was, plus deposits and profits, minus what
      executions paid. */
  lemma {:induction false} RunBalance(p: Pool, actions: seq<Action>)
    requires Valid(p)
    ensures Run(p, actions).value + TotalOut(p, actions) == p.value + TotalIn(p, actions)
    decreases |actions|
  {
    if actions != [] {
      AfterValid(p, actions[0]);
      StepBalance(p, actions[0]);
      RunBalance(After(p, actions[0]), actions[1..]);
    }
  }

  // ----- An example -----

  /** A pool with no shares and value left is reachable: the floor keeps back what the last
      shares were worth. */
  lemma LeftoverReachable()
    ensures
      var actions := [Deposit(3_000_000_000), RequestWithdrawal(3_000_000_000), Mine(60), Execute(0)];
      var q := Run(Empty(0, 60, 100_000_000, 1_000_000_000), actions);
      q.supply == 0 && q.value == 1_000_000_000
  {
    var p0 := Empty(0, 60, 100_000_000, 1_000_000_000);
    var a := [Deposit(3_000_000_000), RequestWithdrawal(3_000_000_000), Mine(60), Execute(0)];
    var p1 := After(p0, a[0]);
    assert p1.value == 3_000_000_000 && p1.supply == 3_000_000_000;
    var p2 := After(p1, a[1]);
    assert WithdrawErg(3_000_000_000, 3_000_000_000, 3_000_000_000) == 3_000_000_000;
    assert p2.pending == map[0 := Request(3_000_000_000, 2_000_000_000, 0, 60)];
    var p3 := After(p2, a[2]);
    var p4 := After(p3, a[3]);
    assert p4.value == 1_000_000_000 && p4.supply == 0;
    assert a[1..] == [a[1], a[2], a[3]] && a[1..][1..] == [a[2], a[3]];
    assert a[1..][1..][1..] == [a[3]] && a[1..][1..][1..][1..] == [];
    assert Run(p3, [a[3]]) == p4;
    assert Run(p2, [a[2], a[3]]) == Run(p3, [a[3]]);
    assert Run(p1, [a[1], a[2], a[3]]) == Run(p2, [a[2], a[3]]);
  }
}
