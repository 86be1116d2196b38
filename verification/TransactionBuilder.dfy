/** The SDK's transaction builder: balancing inputs against outputs and a fee field that
    `build` itself changes when it absorbs dust. Amounts are unbounded and unchecked. */
module TransactionBuilder {
  import opened Wrappers

  const DEFAULT_FEE: int := 1000000
  const DEFAULT_MIN_BOX_VALUE: int := 100000

  datatype Input = Input(boxId: string, value: int)

  datatype Output = Output(address: string, value: int)

  datatype Transaction = Transaction(inputs: seq<Input>, outputs: seq<Output>, fee: int)

  datatype BuildError = NoInputs | Shortfall(missing: int) | NoChangeAddress(unspent: int)

  datatype Request = Request(inputs: seq<Input>, outputs: seq<Output>)

  function InputTotal(inputs: seq<Input>): int {
    if inputs == [] then 0 else InputTotal(inputs[..|inputs| - 1]) + inputs[|inputs| - 1].value
  }

  function OutputTotal(outputs: seq<Output>): int {
    if outputs == [] then 0 else OutputTotal(outputs[..|outputs| - 1]) + outputs[|outputs| - 1].value
  }

  /** The builder's fields. */
  datatype Settings = Settings(fee: int, changeAddress: Option<string>, minBoxValue: int) {
    /** `!this.changeAddress`: absent or empty. */
    predicate HasChangeAddress() {
      changeAddress.Some? && changeAddress.value != ""
    }

    function Unspent(q: Request): int {
      InputTotal(q.inputs) - OutputTotal(q.outputs) - fee
    }

    /** What `build` returns or raises. */
    function Outcome(q: Request): Result<Transaction, BuildError> {
      var change := Unspent(q);
      if q.inputs == [] then Err(NoInputs)
      else if change < 0 then Err(Shortfall(-change))
      else if change > 0 && !HasChangeAddress() then Err(NoChangeAddress(change))
      else if change > 0 && change >= minBoxValue then
        Ok(Transaction(q.inputs, q.outputs + [Output(changeAddress.value, change)], fee))
      else Ok(Transaction(q.inputs, q.outputs, fee + change))
    }

    /** The builder after the call. */
    function After(q: Request): Settings {
      match Outcome(q)
      case Err(_) => this
      case Ok(t) => this.(fee := t.fee)
    }
  }

  class Builder {
    var fee: int
    var changeAddress: Option<string>
    var minBoxValue: int

    function State(): Settings
      reads this
    {
      Settings(fee, changeAddress, minBoxValue)
    }

    constructor (fee: Option<int>, changeAddress: Option<string>, minBoxValue: Option<int>)
      ensures this.fee == (if fee.Some? then fee.value else 1000000)
      ensures this.changeAddress == changeAddress
      ensures this.minBoxValue == (if minBoxValue.Some? then minBoxValue.value else 100000)
    {
      this.fee := if fee.Some? then fee.value else DEFAULT_FEE;
      this.changeAddress := changeAddress;
      this.minBoxValue := if minBoxValue.Some? then minBoxValue.value else DEFAULT_MIN_BOX_VALUE;
    }

    method SetFee(value: int)
      modifies this`fee
      ensures State() == old(State()).(fee := value)
    {
      fee := value;
    }

    method SetChangeAddress(address: string)
      modifies this`changeAddress
      ensures State() == old(State()).(changeAddress := Some(address))
    {
      changeAddress := Some(address);
    }

    /** Whatever is not spent is change, dust in the fee, or a refusal. */
    method Build(inputs: seq<Input>, outputs: seq<Output>) returns (r: Result<Transaction, BuildError>)
      modifies this`fee
      ensures r == old(State()).Outcome(Request(inputs, outputs))
      ensures State() == old(State()).After(Request(inputs, outputs))
      ensures r.Ok? ==> InputTotal(inputs) == OutputTotal(r.value.outputs) + r.value.fee && fee == r.value.fee
      ensures r.Err? ==> fee == old(fee)
    {
      BuildConserves(State(), Request(inputs, outputs));
      if |inputs| == 0 {
        return Err(NoInputs);
      }
      var totalInputValue := InputTotal(inputs);
      var totalCost := OutputTotal(outputs) + fee;
      if totalCost > totalInputValue {
        return Err(Shortfall(totalCost - totalInputValue));
      }
      var changeValue := totalInputValue - totalCost;
      var allOutputs := outputs;
      if changeValue > 0 {
        if changeAddress.None? || changeAddress.value == "" {
          return Err(NoChangeAddress(changeValue));
        }
        if changeValue >= minBoxValue {
          allOutputs := allOutputs + [Output(changeAddress.value, changeValue)];
        } else {
          fee := fee + changeValue;
        }
      }
      r := Ok(Transaction(inputs, allOutputs, fee));
    }
  }

  // ----- One build -----

  /** A transaction spends its inputs to the last nanoERG. The caller's outputs come first,
      unchanged; at most one output follows, to the change address, of at least the minimum
      box value; and the fee rises above the stored one by less than that minimum, and only
      if there is no change output. */
  lemma BuildConserves(s: Settings, q: Request)
    ensures s.Outcome(q).Ok? ==>
              var t := s.Outcome(q).value;
              && t.inputs == q.inputs
              && InputTotal(t.inputs) == OutputTotal(t.outputs) + t.fee
              && q.outputs <= t.outputs && |t.outputs| <= |q.outputs| + 1
              && (forall i :: |q.outputs| <= i < |t.outputs| ==>
                    t.outputs[i].value >= s.minBoxValue && t.outputs[i].value > 0
                    && Some(t.outputs[i].address) == s.changeAddress && t.outputs[i].address != "")
              && t.fee >= s.fee
              && (t.fee > s.fee ==> t.fee - s.fee < s.minBoxValue && t.outputs == q.outputs)
  {
    if s.Outcome(q).Ok? {
      var t := s.Outcome(q).value;
      if |t.outputs| > |q.outputs| {
        assert t.outputs[..|t.outputs| - 1] == q.outputs;
      }
    }
  }

  /** A build succeeds exactly when there is an input, the outputs and stored fee are covered,
      and either nothing is left over or a change address is set: even for dust. */
  lemma BuildSucceedsIff(s: Settings, q: Request)
    ensures s.Outcome(q).Ok? <==>
              && |q.inputs| > 0
              && InputTotal(q.inputs) >= OutputTotal(q.outputs) + s.fee
              && (InputTotal(q.inputs) == OutputTotal(q.outputs) + s.fee || s.HasChangeAddress())
  {
  }

  /** Building the same request again gives the same answer and changes nothing more. */
  lemma RebuildSame(s: Settings, q: Request)
    ensures s.After(q).Outcome(q) == s.Outcome(q)
    ensures s.After(q).After(q) == s.After(q)
  {
  }

  /** The totals: nothing for no box, one box's value for one, and additive. */
  lemma {:induction false} InputTotalMeaning(a: seq<Input>, b: seq<Input>, x: Input)
    ensures InputTotal([]) == 0 && InputTotal([x]) == x.value
    ensures InputTotal(a + b) == InputTotal(a) + InputTotal(b)
    decreases |b|
  {
    assert [x][..0] == [];
    if b == [] {
      assert a + b == a;
    } else {
      var n := |b| - 1;
      assert (a + b)[..|a + b| - 1] == a + b[..n];
      InputTotalMeaning(a, b[..n], x);
    }
  }

  lemma {:induction false} OutputTotalMeaning(a: seq<Output>, b: seq<Output>, x: Output)
    ensures OutputTotal([]) == 0 && OutputTotal([x]) == x.value
    ensures OutputTotal(a + b) == OutputTotal(a) + OutputTotal(b)
    decreases |b|
  {
    assert [x][..0] == [];
    if b == [] {
      assert a + b == a;
    } else {
      var n := |b| - 1;
      assert (a + b)[..|a + b| - 1] == a + b[..n];
      OutputTotalMeaning(a, b[..n], x);
    }
  }

  /** Which error a refused build raises, with its amount. */
  lemma BuildRefusals(s: Settings, q: Request)
    ensures
      var needed := OutputTotal(q.outputs) + s.fee;
      var given := InputTotal(q.inputs);
      var addressed := s.changeAddress.Some? && |s.changeAddress.value| > 0;
      && (s.Outcome(q) == Err(NoInputs) <==> |q.inputs| == 0)
      && (|q.inputs| > 0 && given < needed ==> s.Outcome(q) == Err(Shortfall(needed - given)))
      && (|q.inputs| > 0 && given > needed && !addressed ==> s.Outcome(q) == Err(NoChangeAddress(given - needed)))
      && (|q.inputs| > 0 && given == needed ==> s.Outcome(q) == Ok(Transaction(q.inputs, q.outputs, s.fee)))
  {
  }

  /** What becomes of a leftover: from the minimum on, one change output of exactly that; below
      it, more fee. */
  lemma LeftoverMeaning(s: Settings, q: Request)
    requires |q.inputs| > 0 && s.changeAddress.Some? && |s.changeAddress.value| > 0
    requires InputTotal(q.inputs) > OutputTotal(q.outputs) + s.fee
    ensures
      var left := InputTotal(q.inputs) - OutputTotal(q.outputs) - s.fee;
      s.Outcome(q) ==
      if left >= s.minBoxValue
      then Ok(Transaction(q.inputs, q.outputs + [Output(s.changeAddress.value, left)], s.fee))
      else Ok(Transaction(q.inputs, q.outputs, s.fee + left))
  {
  }

  // ----- Runs of builds on one builder -----

  function AfterAll(s: Settings, requests: seq<Request>): Settings
    decreases |requests|
  {
    if requests == [] then s else AfterAll(s.After(requests[0]), requests[1..])
  }

  /** A request whose leftover is too small for a change output. */
  predicate LeavesDust(s: Settings, q: Request) {
    q.inputs != [] && s.HasChangeAddress() && 0 < s.Unspent(q) < s.minBoxValue
  }

  function Dust(s: Settings, q: Request): nat {
    if LeavesDust(s, q) then s.Unspent(q) else 0
  }

  function DustOf(s: Settings, requests: seq<Request>): nat
    decreases |requests|
  {
    if requests == [] then 0 else Dust(s, requests[0]) + DustOf(s.After(requests[0]), requests[1..])
  }

  /** A build changes the builder exactly when the request leaves dust, and then by that much. */
  lemma AbsorbsIff(s: Settings, q: Request)
    ensures s.After(q) == s <==> !LeavesDust(s, q)
    ensures s.After(q) == s.(fee := s.fee + Dust(s, q))
    ensures LeavesDust(s, q) ==> s.Outcome(q) == Ok(Transaction(q.inputs, q.outputs, s.fee + Dust(s, q)))
  {
  }

  /** The most one build can absorb. */
  function DustCap(s: Settings): nat {
    if s.minBoxValue > 0 then s.minBoxValue - 1 else 0
  }

  /** Over any run the stored fee grows by exactly the dust the requests leave, by less than
      the minimum box value for each build, and the other fields stay. */
  lemma {:induction false} FeeDrift(s: Settings, requests: seq<Request>)
    ensures AfterAll(s, requests) == s.(fee := s.fee + DustOf(s, requests))
    ensures DustOf(s, requests) <= |requests| * DustCap(s)
    decreases |requests|
  {
    if requests != [] {
      var rest := requests[1..];
      AbsorbsIff(s, requests[0]);
      FeeDrift(s.After(requests[0]), rest);
      assert (1 + |rest|) * DustCap(s) == DustCap(s) + |rest| * DustCap(s);
    }
  }

  /** Every build of the run leaves the builder as it found it. */
  predicate NoneLeavesDust(s: Settings, requests: seq<Request>) {
    forall i :: 0 <= i < |requests| ==> !LeavesDust(s, requests[i])
  }

  /** A run leaves the stored fee as it was exactly when none of its requests leaves dust at
      that fee. */
  lemma {:induction false} NoDriftIff(s: Settings, requests: seq<Request>)
    ensures AfterAll(s, requests) == s <==> NoneLeavesDust(s, requests)
    decreases |requests|
  {
    if requests != [] {
      var first, rest := requests[0], requests[1..];
      AbsorbsIff(s, first);
      if LeavesDust(s, first) {
        FeeDrift(s.After(first), rest);
      } else {
        NoDriftIff(s, rest);
        assert forall i :: 0 < i < |requests| ==> requests[i] == rest[i - 1];
        assert forall i :: 0 <= i < |rest| ==> rest[i] == requests[i + 1];
      }
    }
  }

  /** A request that builds at one fee builds at a higher stored fee exactly when the inputs
      cover it; then the two transactions spend the same inputs. So drift alone can make a
      builder refuse what it accepted before. */
  lemma DriftRefusesIff(s: Settings, drifted: Settings, q: Request)
    requires drifted == s.(fee := drifted.fee) && drifted.fee >= s.fee && s.Outcome(q).Ok?
    ensures drifted.Outcome(q).Ok? <==> InputTotal(q.inputs) - OutputTotal(q.outputs) >= drifted.fee
    ensures drifted.Outcome(q).Err? ==> drifted.Outcome(q).error == Shortfall(
                drifted.fee - (InputTotal(q.inputs) - OutputTotal(q.outputs)))
  {
  }

  /** A request that leaves the most dust. */
  function Wasteful(s: Settings): Request {
    Request([Input("", s.fee + s.minBoxValue - 1)], [])
  }

  lemma WastefulAbsorbs(s: Settings)
    requires s.minBoxValue > 1 && s.HasChangeAddress()
    ensures s.After(Wasteful(s)) == s.(fee := s.fee + DustCap(s))
  {
    var input := Wasteful(s).inputs[0];
    assert InputTotal([input]) == InputTotal([]) + input.value;
  }

  /** The bound on drift is reached: each of n builds can absorb its most. */
  lemma {:induction false} DriftBoundReached(s: Settings, n: nat)
    requires s.minBoxValue > 1 && s.HasChangeAddress()
    ensures exists requests: seq<Request> ::
              |requests| == n && AfterAll(s, requests).fee == s.fee + n * DustCap(s)
    decreases n
  {
    if n == 0 {
      assert AfterAll(s, []) == s;
    } else {
      var next := s.After(Wasteful(s));
      WastefulAbsorbs(s);
      DriftBoundReached(next, n - 1);
      var rest: seq<Request> :| |rest| == n - 1 && AfterAll(next, rest).fee == next.fee + (n - 1) * DustCap(next);
      var all := [Wasteful(s)] + rest;
      assert all[1..] == rest;
      assert |all| == n && AfterAll(s, all).fee == s.fee + n * DustCap(s) by {
        assert n * DustCap(s) == DustCap(s) + (n - 1) * DustCap(s);
      }
    }
  }
}
