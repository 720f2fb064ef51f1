/** Block rewards and slashing: balances are read and written one at a time in a state that
    may refuse a write, and the reward is split in integer arithmetic. */
module Rewards {
  import opened Wrappers
  import opened Words

  type Balances = map<Address, int>

  /** An account that does not exist has balance zero. */
  function BalanceOf(m: Balances, a: Address): int { if a in m then m[a] else 0 }

  ghost predicate NonNegative(m: Balances) { forall a :: a in m ==> m[a] >= 0 }

  // ---------------------------------------------------------------------------
  // Total supply
  // ---------------------------------------------------------------------------

  ghost function Supply(m: Balances): int
  {
    if m == map[] then 0 else var a :| a in m; m[a] + Supply(m - {a})
  }

  lemma {:induction false} SupplySplit(m: Balances, a: Address)
    requires a in m
    ensures Supply(m) == m[a] + Supply(m - {a})
  {
    var b :| b in m && Supply(m) == m[b] + Supply(m - {b});
    if b != a {
      SupplySplit(m - {b}, a);
      SupplySplit(m - {a}, b);
      assert m - {b} - {a} == m - {a} - {b};
    }
  }

  lemma SupplyUpdate(m: Balances, a: Address, v: int)
    ensures Supply(m[a := v]) == Supply(m) - BalanceOf(m, a) + v
  {
    SupplySplit(m[a := v], a);
    assert m[a := v] - {a} == m - {a};
    if a in m {
      SupplySplit(m, a);
    } else {
      assert m - {a} == m;
    }
  }

  // ---------------------------------------------------------------------------
  // The split
  // ---------------------------------------------------------------------------

  datatype Payment = Payment(to: Address, amount: nat)

  function ProducerShare(reward: nat): nat { reward * 80 / 100 }

  function ValidatorShare(reward: nat, n: nat): (share: nat)
    requires n > 0
  {
    assert ProducerShare(reward) <= reward;
    (reward - ProducerShare(reward)) / n
  }

  predicate Skipped(producer: Address, a: Address) { a == ZERO_ADDRESS || a == producer }

  ghost function ValidatorPayments(share: nat, producer: Address, vs: seq<Address>): seq<Payment>
  {
    if vs == [] then []
    else
      var n := |vs| - 1;
      ValidatorPayments(share, producer, vs[..n]) + if Skipped(producer, vs[n]) then [] else [Payment(vs[n], share)]
  }

  /** The writes of a distribution, in order. */
  ghost function Payments(reward: nat, producer: Address, vs: seq<Address>): seq<Payment>
  {
    if vs == [] then [Payment(producer, reward)]
    else
      var share := ValidatorShare(reward, |vs|);
      [Payment(producer, ProducerShare(reward))] + if share > 0 then ValidatorPayments(share, producer, vs) else []
  }

  ghost function Paid(m: Balances, ps: seq<Payment>): Balances
  {
    if ps == [] then m
    else
      var before, p := Paid(m, ps[..|ps| - 1]), ps[|ps| - 1];
      before[p.to := BalanceOf(before, p.to) + p.amount]
  }

  ghost function Amount(ps: seq<Payment>): nat
  {
    if ps == [] then 0 else Amount(ps[..|ps| - 1]) + ps[|ps| - 1].amount
  }

  ghost function Received(ps: seq<Payment>, a: Address): nat
  {
    if ps == [] then 0
    else Received(ps[..|ps| - 1], a) + if ps[|ps| - 1].to == a then ps[|ps| - 1].amount else 0
  }

  /** How often an address is listed, and how many entries are passed over. */
  ghost function Listed(vs: seq<Address>, a: Address): nat
  {
    if vs == [] then 0 else Listed(vs[..|vs| - 1], a) + if vs[|vs| - 1] == a then 1 else 0
  }

  ghost function SkippedIn(producer: Address, vs: seq<Address>): nat
  {
    if vs == [] then 0
    else SkippedIn(producer, vs[..|vs| - 1]) + if Skipped(producer, vs[|vs| - 1]) then 1 else 0
  }

  /** Payments add to the balances of those paid, and to the supply, exactly their amounts. */
  lemma {:induction false} PaidAdds(m: Balances, ps: seq<Payment>, a: Address)
    ensures BalanceOf(Paid(m, ps), a) == BalanceOf(m, a) + Received(ps, a)
    ensures Supply(Paid(m, ps)) == Supply(m) + Amount(ps)
    ensures NonNegative(m) ==> NonNegative(Paid(m, ps))
  {
    if ps != [] {
      var n := |ps| - 1;
      var before := Paid(m, ps[..n]);
      PaidAdds(m, ps[..n], a);
      SupplyUpdate(before, ps[n].to, BalanceOf(before, ps[n].to) + ps[n].amount);
    }
  }

  lemma Times(share: nat, k: int)
    ensures share * (k + 1) == share * k + share
  {
  }

  lemma LastPayment(share: nat, producer: Address, vs: seq<Address>)
    requires vs != []
    ensures var n := |vs| - 1;
            var before, now := ValidatorPayments(share, producer, vs[..n]), ValidatorPayments(share, producer, vs);
            if Skipped(producer, vs[n]) then now == before
            else now != [] && now[..|now| - 1] == before && now[|now| - 1] == Payment(vs[n], share)
  {
  }

  lemma {:induction false} ValidatorsReceive(share: nat, producer: Address, vs: seq<Address>, a: Address)
    ensures Received(ValidatorPayments(share, producer, vs), a)
            == if Skipped(producer, a) then 0 else share * Listed(vs, a)
  {
    if vs != [] {
      var n := |vs| - 1;
      ValidatorsReceive(share, producer, vs[..n], a);
      LastPayment(share, producer, vs);
      Times(share, Listed(vs[..n], a));
      hide ValidatorPayments;
    }
  }

  lemma {:induction false} ValidatorsAmount(share: nat, producer: Address, vs: seq<Address>)
    ensures SkippedIn(producer, vs) <= |vs|
    ensures Amount(ValidatorPayments(share, producer, vs)) == share * (|vs| - SkippedIn(producer, vs))
  {
    if vs != [] {
      var n := |vs| - 1;
      ValidatorsAmount(share, producer, vs[..n]);
      LastPayment(share, producer, vs);
      Times(share, n - SkippedIn(producer, vs[..n]));
      hide ValidatorPayments;
    }
  }

  lemma {:induction false} AmountAppend(ps: seq<Payment>, qs: seq<Payment>, a: Address)
    ensures Amount(ps + qs) == Amount(ps) + Amount(qs) && Received(ps + qs, a) == Received(ps, a) + Received(qs, a)
  {
    if qs == [] {
      assert ps + qs == ps;
    } else {
      var n := |qs| - 1;
      AmountAppend(ps, qs[..n], a);
      assert (ps + qs)[..|ps + qs| - 1] == ps + qs[..n];
    }
  }

  /** Who gets what of a reward: the producer once, every other listed address its share for
      each time it is listed, the zero address nothing. */
  lemma DistributionShares(reward: nat, producer: Address, vs: seq<Address>, a: Address)
    requires producer != ZERO_ADDRESS
    ensures var ps := Payments(reward, producer, vs);
            Received(ps, a) ==
              if a == producer then (if vs == [] then reward else ProducerShare(reward))
              else if a == ZERO_ADDRESS || vs == [] then 0
              else ValidatorShare(reward, |vs|) * Listed(vs, a)
  {
    if vs == [] {
      assert Payments(reward, producer, vs)[..0] == [];
    } else {
      var share := ValidatorShare(reward, |vs|);
      var first := [Payment(producer, ProducerShare(reward))];
      var rest := if share > 0 then ValidatorPayments(share, producer, vs) else [];
      ValidatorsReceive(share, producer, vs, a);
      AmountAppend(first, rest, a);
      assert first[..0] == [];
      hide ValidatorPayments, ProducerShare, ValidatorShare, Listed;
    }
  }

  /** The same on balances: the producer gets four fifths rounded down, or all without
      validators, and every other listed address an equal part, rounded down, of what remains. */
  lemma BalancesAfterDistribution(m: Balances, reward: nat, producer: Address, vs: seq<Address>, a: Address)
      returns (share: nat)
    requires producer != ZERO_ADDRESS
    ensures var after := Paid(m, Payments(reward, producer, vs));
            var got := BalanceOf(after, producer) - BalanceOf(m, producer);
            && (vs == [] ==> got == reward)
            && (vs != [] ==> 100 * got <= 80 * reward < 100 * (got + 1))
            && (vs != [] ==> |vs| * share <= reward - got < |vs| * (share + 1))
            && (a != producer ==>
                  BalanceOf(after, a) - BalanceOf(m, a) ==
                  if vs == [] || a == ZERO_ADDRESS then 0 else share * Listed(vs, a))
  {
    var ps := Payments(reward, producer, vs);
    PaidAdds(m, ps, producer);
    PaidAdds(m, ps, a);
    DistributionShares(reward, producer, vs, producer);
    DistributionShares(reward, producer, vs, a);
    hide Paid, Payments, Received, Listed;
    share := 0;
    if vs != [] {
      share := ValidatorShare(reward, |vs|);
      Division(reward - ProducerShare(reward), |vs|);
    }
  }

  lemma ProducerGets(m: Balances, reward: nat, producer: Address, vs: seq<Address>)
    requires producer != ZERO_ADDRESS
    ensures var ps := Payments(reward, producer, vs);
            var got := BalanceOf(Paid(m, ps[..|ps|]), producer) - BalanceOf(m, producer);
            if vs == [] then got == reward else 100 * got <= 80 * reward < 100 * (got + 1)
  {
    var ps := Payments(reward, producer, vs);
    assert ps[..|ps|] == ps;
    var share := BalancesAfterDistribution(m, reward, producer, vs, producer);
  }

  lemma Division(x: nat, n: nat)
    requires n > 0
    ensures n * (x / n) <= x < n * (x / n + 1)
  {
  }

  /** A distribution pays at most the reward. What it leaves is the remainder of the division
      and the shares of the entries passed over; less than one unit for each validator when
      none is. */
  lemma DistributionLeaves(reward: nat, producer: Address, vs: seq<Address>)
    ensures Amount(Payments(reward, producer, vs)) <= reward
    ensures vs == [] ==> Amount(Payments(reward, producer, vs)) == reward
    ensures vs != [] ==>
              reward - Amount(Payments(reward, producer, vs)) ==
              (reward - ProducerShare(reward)) % |vs| + ValidatorShare(reward, |vs|) * SkippedIn(producer, vs)
    ensures vs != [] && SkippedIn(producer, vs) == 0 ==> reward - Amount(Payments(reward, producer, vs)) < |vs|
  {
    if vs == [] {
      assert Payments(reward, producer, vs)[..0] == [];
    } else {
      SplitLeaves(reward, producer, vs);
      hide Payments, ProducerShare, ValidatorShare, SkippedIn, Amount;
    }
  }

  lemma SplitLeaves(reward: nat, producer: Address, vs: seq<Address>)
    requires vs != []
    ensures var n, left := |vs|, reward - Amount(Payments(reward, producer, vs));
            var skipped := SkippedIn(producer, vs);
            && left == (reward - ProducerShare(reward)) % n + ValidatorShare(reward, n) * skipped && left >= 0
            && (skipped == 0 ==> left < n)
  {
    hide Payments, ProducerShare, ValidatorShare, ValidatorPayments, SkippedIn, Amount;
    PaymentsAmount(reward, producer, vs);
    ValidatorsAmount(ValidatorShare(reward, |vs|), producer, vs);
    ShareLeaves(reward, |vs|, SkippedIn(producer, vs));
  }

  lemma ShareLeaves(reward: nat, n: nat, skipped: nat)
    requires 0 < n && skipped <= n
    ensures var pool, share := reward - ProducerShare(reward), ValidatorShare(reward, n);
            var left := pool - share * (n - skipped);
            && left == pool % n + share * skipped && left >= 0 && (skipped == 0 ==> left < n)
  {
    var pool := reward - ProducerShare(reward);
    assert pool >= 0;
    DivisionLeaves(pool, n, skipped);
  }

  lemma DivisionLeaves(pool: nat, n: nat, skipped: nat)
    requires 0 < n && skipped <= n
    ensures pool - pool / n * (n - skipped) == pool % n + pool / n * skipped
    ensures 0 <= pool / n * skipped && 0 <= pool % n < n
  {
    var share := pool / n;
    assert pool == share * n + pool % n;
    assert share * (n - skipped) == share * n - share * skipped;
  }

  lemma PaymentsAmount(reward: nat, producer: Address, vs: seq<Address>)
    requires vs != []
    ensures Amount(Payments(reward, producer, vs)) ==
            ProducerShare(reward) + Amount(ValidatorPayments(ValidatorShare(reward, |vs|), producer, vs))
  {
    var share := ValidatorShare(reward, |vs|);
    var first := [Payment(producer, ProducerShare(reward))];
    assert first[..0] == [];
    hide ValidatorPayments, ProducerShare, ValidatorShare;
    if share > 0 {
      AmountAppend(first, ValidatorPayments(share, producer, vs), producer);
    } else {
      ValidatorsAmount(share, producer, vs);
    }
  }

  lemma {:induction false} PartOfPayments(ps: seq<Payment>, k: nat)
    requires k <= |ps|
    ensures Amount(ps[..k]) <= Amount(ps)
  {
    if k < |ps| {
      PartOfPayments(ps[..|ps| - 1], k);
      assert ps[..|ps| - 1][..k] == ps[..k];
    } else {
      assert ps[..k] == ps;
    }
  }

  // ---------------------------------------------------------------------------
  // The calculator
  // ---------------------------------------------------------------------------

  datatype RewardError = NilState | ZeroAddress | NilReward | NegativeReward | InvalidSlashPercentage | NoStake
                       | SlashingTooHigh | WriteRefused

  /** The state takes a number of writes and then refuses. */
  class State {
    var balances: Balances
    var budget: nat

    method GetBalance(a: Address) returns (b: Option<int>)
      ensures b == if a in balances then Some(balances[a]) else None
    {
      b := if a in balances then Some(balances[a]) else None;
    }

    method SetBalance(a: Address, v: int) returns (ok: bool)
      modifies this
      ensures ok <==> old(budget) > 0
      ensures balances == if ok then old(balances)[a := v] else old(balances)
      ensures budget == if ok then old(budget) - 1 else 0
    {
      ok := budget > 0;
      if ok {
        balances, budget := balances[a := v], budget - 1;
      }
    }

    /** Adds to a balance, an absent one counting as zero. */
    method Credit(p: Payment) returns (ok: bool)
      modifies this
      ensures ok <==> old(budget) > 0
      ensures balances == if ok then old(balances)[p.to := BalanceOf(old(balances), p.to) + p.amount] else old(balances)
      ensures budget == if ok then old(budget) - 1 else 0
    {
      var current := GetBalance(p.to);
      ok := SetBalance(p.to, (if current.Some? then current.value else 0) + p.amount);
    }
  }

  class Calculator {
    var rewardPerBlock: nat

    constructor (reward: nat)
      ensures rewardPerBlock == reward
    {
      rewardPerBlock := reward;
    }

    method UpdateRewardPerBlock(reward: Option<int>) returns (error: Option<RewardError>)
      modifies this
      ensures error.None? <==> reward.Some? && reward.value >= 0
      ensures rewardPerBlock == if error.None? then reward.value else old(rewardPerBlock)
    {
      if reward.None? {
        return Some(NilReward);
      }
      if reward.value < 0 {
        return Some(NegativeReward);
      }
      rewardPerBlock := reward.value;
      return None;
    }

    /** Makes the payments in order, as many as the state takes. */
    method DistributeBlockReward(s: State?, producer: Address, vs: seq<Address>) returns (error: Option<RewardError>)
      modifies s
      ensures s == null ==> error == Some(NilState)
      ensures s != null && producer == ZERO_ADDRESS ==> error == Some(ZeroAddress) && unchanged(s)
      ensures s != null && producer != ZERO_ADDRESS ==>
                var ps := Payments(rewardPerBlock, producer, vs);
                var k := Least(old(s.budget), |ps|);
                && s.balances == Paid(old(s.balances), ps[..k]) && s.budget == old(s.budget) - k
                && error == if k == |ps| then None else Some(WriteRefused)
      ensures error.None? ==>
                var got := BalanceOf(s.balances, producer) - BalanceOf(old(s.balances), producer);
                if vs == [] then got == rewardPerBlock else 100 * got <= 80 * rewardPerBlock < 100 * (got + 1)
    {
      if s == null {
        return Some(NilState);
      }
      if producer == ZERO_ADDRESS {
        return Some(ZeroAddress);
      }
      hide Payments, Paid;
      ProducerGets(s.balances, rewardPerBlock, producer, vs);
      error := PayAll(s, producer, vs);
    }

    method PayAll(s: State, producer: Address, vs: seq<Address>) returns (error: Option<RewardError>)
      requires producer != ZERO_ADDRESS
      modifies s
      ensures var ps := Payments(rewardPerBlock, producer, vs);
              var k := Least(old(s.budget), |ps|);
              && s.balances == Paid(old(s.balances), ps[..k]) && s.budget == old(s.budget) - k
              && error == if k == |ps| then None else Some(WriteRefused)
    {
      if |vs| == 0 {
        OnePayment(s.balances, Payment(producer, rewardPerBlock));
        var ok := s.Credit(Payment(producer, rewardPerBlock));
        return if ok then None else Some(WriteRefused);
      }
      var producerShare := rewardPerBlock * 80 / 100;
      var total := rewardPerBlock - producerShare;
      OnePayment(s.balances, Payment(producer, producerShare));
      ghost var m := s.balances;
      var ok := s.Credit(Payment(producer, producerShare));
      if !ok {
        return Some(WriteRefused);
      }
      var share := total / |vs|;
      if share > 0 {
        ghost var first := Payment(producer, producerShare);
        error := PayValidators(s, share, producer, vs, m, first);
      } else {
        return None;
      }
    }

    method PayValidators(s: State, share: nat, producer: Address, vs: seq<Address>,
                         ghost m: Balances, ghost first: Payment)
        returns (error: Option<RewardError>)
      requires s.balances == Paid(m, [first])
      modifies s
      ensures var ps := [first] + ValidatorPayments(share, producer, vs);
              var k := Least(old(s.budget) + 1, |ps|);
              && s.balances == Paid(m, ps[..k]) && s.budget == old(s.budget) + 1 - k
              && error == if k == |ps| then None else Some(WriteRefused)
    {
      hide Paid;
      ghost var ps := [first] + ValidatorPayments(share, producer, vs);
      ghost var done: seq<Payment> := [];
      assert [first] + done == [first];
      var i := 0;
      while i < |vs|
        invariant i <= |vs| && done == ValidatorPayments(share, producer, vs[..i])
        invariant s.balances == Paid(m, [first] + done) && s.budget == old(s.budget) - |done|
      {
        assert vs[..i + 1][..i] == vs[..i];
        PaymentsPrefix(share, producer, vs, i + 1);
        if !Skipped(producer, vs[i]) {
          ghost var p := Payment(vs[i], share);
          var ok := s.Credit(Payment(vs[i], share));
          if !ok {
            assert ps[..1 + |done|] == [first] + done;
            return Some(WriteRefused);
          }
          PaidOneMore(m, [first] + done, p);
          assert [first] + done + [p] == [first] + (done + [p]);
          done := done + [p];
        }
        i := i + 1;
      }
      assert vs[..i] == vs && ps[..|ps|] == [first] + done;
      return None;
    }

    /** Takes the percentage of the stake, rounded down; all of it at 100. */
    method ApplySlashing(s: State?, validator: Address, percentage: nat) returns (error: Option<RewardError>)
      modifies s
      ensures s == null ==> error == Some(NilState)
      ensures s != null ==>
                error ==
                  if validator == ZERO_ADDRESS then Some(ZeroAddress)
                  else if percentage > 100 then Some(InvalidSlashPercentage)
                  else if percentage == 0 then None
                  else if BalanceOf(old(s.balances), validator) <= 0 then Some(NoStake)
                  else if old(s.budget) == 0 then Some(WriteRefused)
                  else None
      ensures s != null && (error.Some? || percentage == 0) ==>
                s.balances == old(s.balances) && s.budget == old(s.budget)
      ensures s != null && error.None? && percentage > 0 ==>
                var stake := BalanceOf(old(s.balances), validator);
                && s.balances == old(s.balances)[validator := stake - Slashed(stake, percentage)]
                && s.budget == old(s.budget) - 1
                && var taken := stake - s.balances[validator];
                && 0 <= taken <= stake && 100 * taken <= stake * percentage < 100 * (taken + 1)
                && (percentage == 100 ==> s.balances[validator] == 0)
    {
      if s == null {
        return Some(NilState);
      }
      if validator == ZERO_ADDRESS {
        return Some(ZeroAddress);
      }
      if percentage > 100 {
        return Some(InvalidSlashPercentage);
      }
      if percentage == 0 {
        return None;
      }
      var current := s.GetBalance(validator);
      if current.None? || current.value <= 0 {
        return Some(NoStake);
      }
      SlashedBounds(current.value, percentage);
      var slash := current.value * percentage / 100;
      if slash > current.value {
        return Some(SlashingTooHigh);
      }
      var ok := s.SetBalance(validator, current.value - slash);
      return if ok then None else Some(WriteRefused);
    }

    method Perform(s: State, op: Op, ghost credited: nat, ghost slashed: nat)
        returns (ghost credited': nat, ghost slashed': nat)
      modifies this, s
      ensures Ledger(s.balances, s.budget, rewardPerBlock, credited', slashed')
              == LedgerStep(Ledger(old(s.balances), old(s.budget), old(rewardPerBlock), credited, slashed), op)
    {
      hide Payments, Paid, Amount;
      ghost var l := LedgerStep(Ledger(s.balances, s.budget, rewardPerBlock, credited, slashed), op);
      credited', slashed' := l.credited, l.slashed;
      match op {
        case Distribute(producer, vs) => var _ := DistributeBlockReward(s, producer, vs);
        case Slash(validator, percentage) => var _ := ApplySlashing(s, validator, percentage);
        case UpdateReward(reward) => var _ := UpdateRewardPerBlock(reward);
      }
    }

    /** Any sequence of operations, refused writes included, ends in the ledger its run has on
        values; so the supply changes by exactly what that run credits less what it slashes. */
    method Replay(s: State, ops: seq<Op>) returns (ghost credited: nat, ghost slashed: nat)
      modifies this, s
      ensures Ledger(s.balances, s.budget, rewardPerBlock, credited, slashed)
              == LedgerRun(Ledger(old(s.balances), old(s.budget), old(rewardPerBlock), 0, 0), ops)
      ensures Supply(s.balances) == old(Supply(s.balances)) + credited - slashed
      ensures credited <= Offered(old(rewardPerBlock), ops)
      ensures old(NonNegative(s.balances)) ==> NonNegative(s.balances)
    {
      hide LedgerStep;
      ghost var start := Ledger(s.balances, s.budget, rewardPerBlock, 0, 0);
      credited, slashed := 0, 0;
      for i := 0 to |ops|
        invariant Ledger(s.balances, s.budget, rewardPerBlock, credited, slashed) == LedgerRun(start, ops[..i])
      {
        credited, slashed := Perform(s, ops[i], credited, slashed);
        assert ops[..i + 1][..i] == ops[..i];
      }
      assert ops[..|ops|] == ops;
      RunConserves(start, ops);
    }
  }

  // ---------------------------------------------------------------------------
  // Runs on values
  // ---------------------------------------------------------------------------

  datatype Op = Distribute(producer: Address, vs: seq<Address>) | Slash(validator: Address, percentage: nat)
              | UpdateReward(reward: Option<int>)

  /** The balances, the writes the state still takes, the reward in force, and the sums of what
      was credited and slashed so far. */
  datatype Ledger = Ledger(balances: Balances, budget: nat, reward: nat, credited: nat, slashed: nat)

  ghost function LedgerStep(l: Ledger, op: Op): Ledger
  {
    match op
    case Distribute(producer, vs) =>
      if producer == ZERO_ADDRESS then l
      else
        var ps := Payments(l.reward, producer, vs);
        var k := Least(l.budget, |ps|);
        l.(balances := Paid(l.balances, ps[..k]), budget := l.budget - k, credited := l.credited + Amount(ps[..k]))
    case Slash(a, percentage) =>
      var stake := BalanceOf(l.balances, a);
      if a == ZERO_ADDRESS || percentage == 0 || percentage > 100 || stake <= 0 || l.budget == 0 then l
      else
        SlashedBounds(stake, percentage);
        var amount := Slashed(stake, percentage);
        l.(balances := l.balances[a := stake - amount], budget := l.budget - 1, slashed := l.slashed + amount)
    case UpdateReward(r) =>
      if r.Some? && r.value >= 0 then l.(reward := r.value) else l
  }

  ghost function LedgerRun(l: Ledger, ops: seq<Op>): Ledger
  {
    if ops == [] then l else LedgerStep(LedgerRun(l, ops[..|ops| - 1]), ops[|ops| - 1])
  }

  /** The sum of the rewards in force at the distributions of a run. */
  ghost function Offered(reward: nat, ops: seq<Op>): nat
  {
    if ops == [] then 0
    else
      var n := |ops| - 1;
      Offered(reward, ops[..n]) +
      if ops[n].Distribute? && ops[n].producer != ZERO_ADDRESS then InForce(reward, ops[..n]) else 0
  }

  /** The reward after the updates of a run; a nil or negative update is refused. */
  ghost function InForce(reward: nat, ops: seq<Op>): nat
  {
    if ops == [] then reward
    else
      var n := |ops| - 1;
      match ops[n]
      case UpdateReward(r) => if r.Some? && r.value >= 0 then r.value else InForce(reward, ops[..n])
      case _ => InForce(reward, ops[..n])
  }

  lemma StepConserves(l: Ledger, op: Op)
    ensures var l' := LedgerStep(l, op);
            && Supply(l'.balances) - l'.credited + l'.slashed == Supply(l.balances) - l.credited + l.slashed
            && l'.credited - l.credited <= (if op.Distribute? && op.producer != ZERO_ADDRESS then l.reward else 0)
            && l'.reward == (if op.UpdateReward? && op.reward.Some? && op.reward.value >= 0 then op.reward.value
                             else l.reward)
            && (NonNegative(l.balances) ==> NonNegative(l'.balances))
  {
    match op
    case Distribute(producer, vs) =>
      var ps := Payments(l.reward, producer, vs);
      DistributionEffect(l.balances, l.reward, producer, vs, Least(l.budget, |ps|));
      hide Payments, Paid, Amount;
    case Slash(a, percentage) =>
      var stake := BalanceOf(l.balances, a);
      if 0 < percentage <= 100 && stake > 0 {
        SlashedBounds(stake, percentage);
      }
      SupplyUpdate(l.balances, a, stake - Slashed(stake, percentage));
    case UpdateReward(_) =>
  }

  /** Over any run the supply is the initial supply plus the credits less the slashes, the
      credits stay within the rewards in force, and no balance goes below zero. */
  lemma {:induction false} RunConserves(l: Ledger, ops: seq<Op>)
    ensures var l' := LedgerRun(l, ops);
            && Supply(l'.balances) - l'.credited + l'.slashed == Supply(l.balances) - l.credited + l.slashed
            && l'.credited - l.credited <= Offered(l.reward, ops)
            && l'.reward == InForce(l.reward, ops)
            && (NonNegative(l.balances) ==> NonNegative(l'.balances))
  {
    if ops != [] {
      var n := |ops| - 1;
      RunConserves(l, ops[..n]);
      StepConserves(LedgerRun(l, ops[..n]), ops[n]);
      hide LedgerStep;
    }
  }

  function Least(a: nat, b: nat): nat { if a < b then a else b }

  function Slashed(stake: int, percentage: nat): int { stake * percentage / 100 }

  lemma SlashedBounds(stake: int, percentage: nat)
    requires stake > 0 && percentage <= 100
    ensures 0 <= Slashed(stake, percentage) <= stake && (percentage == 100 ==> Slashed(stake, percentage) == stake)
  {
    assert stake * percentage <= stake * 100;
  }

  lemma OnePayment(m: Balances, p: Payment)
    ensures Paid(m, [p]) == m[p.to := BalanceOf(m, p.to) + p.amount] && [p][..0] == [] && [p][..1] == [p]
  {
    assert [p][..0] == [];
  }

  lemma PaidOneMore(m: Balances, ps: seq<Payment>, p: Payment)
    ensures Paid(m, ps + [p]) == Paid(m, ps)[p.to := BalanceOf(Paid(m, ps), p.to) + p.amount]
  {
    assert (ps + [p])[..|ps|] == ps;
  }

  lemma {:induction false} PaymentsPrefix(share: nat, producer: Address, vs: seq<Address>, i: nat)
    requires i <= |vs|
    ensures ValidatorPayments(share, producer, vs[..i]) <= ValidatorPayments(share, producer, vs)
  {
    if i == |vs| {
      assert vs[..i] == vs;
    } else {
      PaymentsPrefix(share, producer, vs[..|vs| - 1], i);
      assert vs[..|vs| - 1][..i] == vs[..i];
    }
  }

  /** What a distribution, complete or cut short, does to the supply. */
  lemma DistributionEffect(m: Balances, reward: nat, producer: Address, vs: seq<Address>, k: nat)
    requires k <= |Payments(reward, producer, vs)|
    ensures var paid := Payments(reward, producer, vs)[..k];
            && Supply(Paid(m, paid)) == Supply(m) + Amount(paid) && Amount(paid) <= reward
            && (NonNegative(m) ==> NonNegative(Paid(m, paid)))
  {
    var ps := Payments(reward, producer, vs);
    PaidAdds(m, ps[..k], producer);
    PartOfPayments(ps, k);
    DistributionLeaves(reward, producer, vs);
  }
}
