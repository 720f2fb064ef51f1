/** An account of the transaction pool: the enqueued and promoted queues on either side of
    nextNonce, with enqueue, promote and reset. */
module NonceAccount {
  import opened Wrappers
  import opened AccountQueue
  import opened HeapOrder
  import opened Words

  const MAX_NONCE: U64 := TWO64 - 1

  datatype EnqueueError = MaxEnqueuedLimitReached | NonceTooLow

  /** What an account holds, without the heaps. */
  datatype State = State(enqueued: multiset<Tx>, promoted: multiset<Tx>, nextNonce: U64, maxEnqueued: nat)

  // ---------------------------------------------------------------------------
  // The steps, on states
  // ---------------------------------------------------------------------------

  ghost predicate EnqueueStep(s: State, tx: Tx, s': State, error: Option<EnqueueError>)
  {
    if |s.enqueued| == s.maxEnqueued then error == Some(MaxEnqueuedLimitReached) && s' == s
    else if tx.nonce < s.nextNonce then error == Some(NonceTooLow) && s' == s
    else error == None && s' == s.(enqueued := s.enqueued + multiset{tx})
  }

  /** m splits into a kept part at or above the nonce and the pruned part below it. */
  ghost predicate Split(m: multiset<Tx>, nonce: U64, kept: multiset<Tx>, pruned: seq<Tx>)
  {
    && m == kept + multiset(pruned)
    && (forall t :: t in kept ==> t.nonce >= nonce)
    && (forall t :: t in pruned ==> t.nonce < nonce)
  }

  lemma SplitCounts(m: multiset<Tx>, nonce: U64, kept: multiset<Tx>, pruned: seq<Tx>)
    requires Split(m, nonce, kept, pruned)
    ensures forall t :: kept[t] == if t.nonce >= nonce then m[t] else 0
  {
    forall t
      ensures kept[t] == if t.nonce >= nonce then m[t] else 0
    {
      if t.nonce >= nonce {
        assert t !in multiset(pruned);
      } else {
        assert t !in kept;
      }
    }
  }

  ghost predicate ResetStep(s: State, nonce: U64, s': State, prunedPromoted: seq<Tx>, prunedEnqueued: seq<Tx>)
  {
    && s'.maxEnqueued == s.maxEnqueued
    && Split(s.promoted, nonce, s'.promoted, prunedPromoted)
    && if nonce <= s.nextNonce then
         s'.enqueued == s.enqueued && prunedEnqueued == [] && s'.nextNonce == s.nextNonce
       else
         Split(s.enqueued, nonce, s'.enqueued, prunedEnqueued) && s'.nextNonce == nonce
  }

  /** The nonces of the list count up from first. */
  ghost predicate CountsUp(ts: seq<Tx>, first: int)
  {
    forall i :: 0 <= i < |ts| ==> ts[i].nonce == first + i
  }

  ghost predicate BestPriced(t: Tx, m: multiset<Tx>)
  {
    forall u :: u in m && u.nonce == t.nonce ==> u.gasPrice <= t.gasPrice
  }

  ghost predicate SharesNonce(u: Tx, ts: seq<Tx>)
  {
    exists t :: t in ts && t.nonce == u.nonce
  }

  /** The enqueued transactions split into promoted, pruned and left; the promoted ones count
      up from the lowest enqueued nonce, each the best priced of its nonce; pruned ones lost
      to a promoted one; and what is left starts after a gap. */
  ghost predicate PromoteStep(s: State, s': State, promoted: seq<Tx>, pruned: seq<Tx>)
  {
    && s.enqueued == multiset(promoted) + multiset(pruned) + s'.enqueued
    && s'.promoted == s.promoted + multiset(promoted)
    && s'.maxEnqueued == s.maxEnqueued
    && (promoted == [] <==> forall t :: t in s.enqueued ==> t.nonce > s.nextNonce)
    && (promoted == [] ==> pruned == [] && s'.nextNonce == s.nextNonce)
    && (promoted != [] ==>
          var first := promoted[0].nonce;
          var next := first + |promoted|;
          && (forall t :: t in s.enqueued ==> first <= t.nonce)
          && CountsUp(promoted, first)
          && (forall t :: t in promoted ==> BestPriced(t, s.enqueued))
          && (forall u :: u in pruned ==> SharesNonce(u, promoted))
          && (forall t :: t in s'.enqueued ==> t.nonce > next)
          && s'.nextNonce == if next > s.nextNonce then next else s.nextNonce)
  }

  /** The enqueued nonces run without a gap from a promotable one to the largest there is. */
  ghost predicate RunsToMax(s: State)
  {
    exists low: U64 ::
      && low <= s.nextNonce && AllFrom(s.enqueued, low)
      && forall n: U64 :: low <= n ==> HasNonce(s.enqueued, n)
  }

  ghost predicate AllFrom(m: multiset<Tx>, low: U64) { forall t :: t in m ==> low <= t.nonce }

  /** Promotion of such a run: after the largest nonce the expected one wraps to zero, so
      nextNonce stays, and further transactions with the largest nonce are left enqueued. */
  ghost predicate WrapStep(s: State, s': State, promoted: seq<Tx>, pruned: seq<Tx>)
  {
    && s.enqueued == multiset(promoted) + multiset(pruned) + s'.enqueued
    && s'.promoted == s.promoted + multiset(promoted)
    && s'.maxEnqueued == s.maxEnqueued && s'.nextNonce == s.nextNonce
    && promoted != [] && promoted[0].nonce <= s.nextNonce && promoted[0].nonce + |promoted| == TWO64
    && AllFrom(s.enqueued, promoted[0].nonce)
    && CountsUp(promoted, promoted[0].nonce)
    && (forall t :: t in promoted ==> BestPriced(t, s.enqueued))
    && (forall u :: u in pruned ==> SharesNonce(u, promoted))
    && (forall t :: t in s'.enqueued ==> t.nonce == MAX_NONCE)
  }

  // ---------------------------------------------------------------------------
  // What every step keeps
  // ---------------------------------------------------------------------------

  /** Enqueued nonces are at or above nextNonce, and no more than the limit. */
  ghost predicate EnqueuedOk(s: State)
  {
    && |s.enqueued| <= s.maxEnqueued
    && forall t :: t in s.enqueued ==> s.nextNonce <= t.nonce
  }

  /** The transactions have distinct nonces that run without a gap up to next - 1. */
  ghost predicate GapFreeRun(m: multiset<Tx>, next: int)
  {
    && (forall t :: t in m ==> t.nonce < next && m[t] == 1)
    && (forall t, u :: t in m && u in m && t.nonce == u.nonce ==> t == u)
    && (forall t, n :: t in m && t.nonce <= n < next ==> HasNonce(m, n))
  }

  ghost predicate Inv(s: State)
  {
    EnqueuedOk(s) && GapFreeRun(s.promoted, s.nextNonce)
  }

  ghost predicate HasNonce(m: multiset<Tx>, n: int)
  {
    exists t :: t in m && t.nonce == n
  }

  lemma EnqueueKeepsInv(s: State, tx: Tx, s': State, error: Option<EnqueueError>)
    requires Inv(s) && EnqueueStep(s, tx, s', error)
    ensures Inv(s') && s'.nextNonce == s.nextNonce
  {
  }

  lemma ResetKeepsInv(s: State, nonce: U64, s': State, prunedPromoted: seq<Tx>, prunedEnqueued: seq<Tx>)
    requires Inv(s) && ResetStep(s, nonce, s', prunedPromoted, prunedEnqueued)
    ensures Inv(s') && s'.nextNonce >= s.nextNonce
  {
    forall t | t in s'.promoted
      ensures t in s.promoted && s'.promoted[t] == 1
    {
      assert s.promoted[t] == s'.promoted[t] + multiset(prunedPromoted)[t];
    }
    forall t, n | t in s'.promoted && t.nonce <= n < s'.nextNonce
      ensures HasNonce(s'.promoted, n)
    {
      assert HasNonce(s.promoted, n);
      var u :| u in s.promoted && u.nonce == n;
      assert u !in prunedPromoted;
      assert u in s'.promoted;
    }
    forall t | t in s'.enqueued
      ensures s'.nextNonce <= t.nonce
    {
    }
  }

  lemma CountsUpDistinct(ts: seq<Tx>, first: int)
    requires CountsUp(ts, first)
    ensures forall t :: t in ts ==> multiset(ts)[t] == 1
    ensures forall t, u :: t in ts && u in ts && t.nonce == u.nonce ==> t == u
  {
    if ts != [] {
      var n := |ts| - 1;
      CountsUpDistinct(ts[..n], first);
      assert ts == ts[..n] + [ts[n]];
      assert ts[n] !in ts[..n];
    }
  }

  /** Appending a run that counts up from the end keeps the run gap free. */
  lemma ExtendRun(m: multiset<Tx>, next: int, ts: seq<Tx>)
    requires GapFreeRun(m, next) && CountsUp(ts, next)
    ensures GapFreeRun(m + multiset(ts), next + |ts|)
  {
    CountsUpDistinct(ts, next);
    var m', next' := m + multiset(ts), next + |ts|;
    forall t | t in m'
      ensures t.nonce < next' && m'[t] == 1 && (t in m <==> t.nonce < next)
    {
      if t in ts {
        var i :| 0 <= i < |ts| && ts[i] == t;
        assert t.nonce == next + i;
      }
    }
    forall t, n | t in m' && t.nonce <= n < next'
      ensures HasNonce(m', n)
    {
      if n >= next {
        assert ts[n - next] in multiset(ts);
        assert ts[n - next].nonce == n;
      } else {
        assert HasNonce(m, n);
        var u :| u in m && u.nonce == n;
        assert u in m';
      }
    }
  }

  lemma PromoteKeepsInv(s: State, s': State, promoted: seq<Tx>, pruned: seq<Tx>)
    requires Inv(s) && PromoteStep(s, s', promoted, pruned)
    ensures Inv(s')
    ensures s'.nextNonce == s.nextNonce + |promoted|
    ensures forall t :: t in s'.enqueued ==> t.nonce > s'.nextNonce
  {
    hide GapFreeRun;
    if promoted == [] {
      assert s.promoted + multiset(promoted) == s.promoted;
    } else {
      PromotedFirst(s, s', promoted, pruned);
      ExtendRun(s.promoted, s.nextNonce, promoted);
    }
    assert |s.enqueued| == |promoted| + |pruned| + |s'.enqueued|;
    forall t | t in s'.enqueued
      ensures t in s.enqueued
    {
    }
  }

  lemma PromotedFirst(s: State, s': State, promoted: seq<Tx>, pruned: seq<Tx>)
    requires Inv(s) && PromoteStep(s, s', promoted, pruned) && promoted != []
    ensures promoted[0].nonce == s.nextNonce
  {
    assert promoted[0] in multiset(promoted);
    assert promoted[0] in s.enqueued;
    var t :| t in s.enqueued && t.nonce <= s.nextNonce;
  }

  /** The promoted transaction with the largest nonce is not below nextNonce. */
  lemma WrapLosesInv(s: State, s': State, promoted: seq<Tx>, pruned: seq<Tx>)
    requires WrapStep(s, s', promoted, pruned)
    ensures !Inv(s')
  {
    var last := promoted[|promoted| - 1];
    assert last in multiset(promoted) && last.nonce == MAX_NONCE;
    assert last in s'.promoted;
  }

  // ---------------------------------------------------------------------------
  // Every run
  // ---------------------------------------------------------------------------

  datatype Op = Enqueue(tx: Tx) | Reset(nonce: U64) | Promote

  /** What the operations of the account do, the wrapping promotion included. */
  ghost predicate Step(s: State, op: Op, s': State)
  {
    match op
    case Enqueue(tx) => exists error :: EnqueueStep(s, tx, s', error)
    case Reset(nonce) => exists pp, pe :: ResetStep(s, nonce, s', pp, pe)
    case Promote =>
      if RunsToMax(s) then exists promoted, pruned :: WrapStep(s, s', promoted, pruned)
      else exists promoted, pruned :: PromoteStep(s, s', promoted, pruned)
  }

  ghost predicate IsRun(run: seq<State>, ops: seq<Op>)
  {
    |run| == |ops| + 1 && forall k :: 0 <= k < |ops| ==> Step(run[k], ops[k], run[k + 1])
  }

  lemma StepAt(run: seq<State>, ops: seq<Op>, k: nat)
    requires IsRun(run, ops) && k < |ops|
    ensures |run| == |ops| + 1 && Step(run[k], ops[k], run[k + 1])
  {
  }

  lemma PrefixIsRun(run: seq<State>, ops: seq<Op>, n: nat)
    requires IsRun(run, ops) && n <= |ops|
    ensures |run| == |ops| + 1 && IsRun(run[..n + 1], ops[..n])
  {
    hide Step;
  }

  /** A step keeps the invariant exactly when it is not a promotion that wraps. */
  lemma StepKeepsInvIff(s: State, op: Op, s': State)
    requires Inv(s) && Step(s, op, s')
    ensures Inv(s') <==> !(op.Promote? && RunsToMax(s))
    ensures s'.nextNonce >= s.nextNonce
  {
    hide Inv, RunsToMax, EnqueueStep, ResetStep, PromoteStep, WrapStep;
    match op
    case Enqueue(tx) =>
      var error :| EnqueueStep(s, tx, s', error);
      EnqueueKeepsInv(s, tx, s', error);
    case Reset(nonce) =>
      var pp, pe :| ResetStep(s, nonce, s', pp, pe);
      ResetKeepsInv(s, nonce, s', pp, pe);
    case Promote =>
      if RunsToMax(s) {
        var promoted, pruned :| WrapStep(s, s', promoted, pruned);
        WrapLosesInv(s, s', promoted, pruned);
        WrapKeepsNonce(s, s', promoted, pruned);
      } else {
        var promoted, pruned :| PromoteStep(s, s', promoted, pruned);
        PromoteKeepsInv(s, s', promoted, pruned);
      }
  }

  lemma WrapKeepsNonce(s: State, s': State, promoted: seq<Tx>, pruned: seq<Tx>)
    requires WrapStep(s, s', promoted, pruned)
    ensures s'.nextNonce == s.nextNonce
  {
  }

  /** The calls of promote that find a run up to the largest nonce. */
  ghost predicate WrapsAt(run: seq<State>, ops: seq<Op>, k: nat)
    requires |run| == |ops| + 1 && k < |ops|
  {
    ops[k].Promote? && RunsToMax(run[k])
  }

  /** The invariant holds in every state of the run. */
  ghost predicate InvAll(run: seq<State>) { forall i :: 0 <= i < |run| ==> Inv(run[i]) }

  ghost predicate NeverWraps(run: seq<State>, ops: seq<Op>)
    requires |run| == |ops| + 1
  {
    forall k :: 0 <= k < |ops| ==> !WrapsAt(run, ops, k)
  }

  /** In every run from a state with the invariant, it holds all the way exactly when no
      promotion is called on a run up to the largest nonce. */
  lemma {:induction false} RunKeepsInvIff(run: seq<State>, ops: seq<Op>)
    requires IsRun(run, ops) && Inv(run[0])
    ensures InvAll(run) <==> NeverWraps(run, ops)
    decreases |ops|
  {
    hide Inv, Step, IsRun, RunsToMax;
    if ops == [] {
      PrefixIsRun(run, ops, 0);
    } else {
      var n := |ops| - 1;
      PrefixIsRun(run, ops, n);
      StepAt(run, ops, n);
      RunKeepsInvIff(run[..n + 1], ops[..n]);
      if Inv(run[n]) {
        StepKeepsInvIff(run[n], ops[n], run[n + 1]);
      }
      SplitLast(run, ops);
    }
  }

  lemma SplitLast(run: seq<State>, ops: seq<Op>)
    requires |run| == |ops| + 1 && ops != []
    ensures var n := |ops| - 1;
            && (InvAll(run) <==> InvAll(run[..n + 1]) && Inv(run[n + 1]))
            && (NeverWraps(run, ops) <==> NeverWraps(run[..n + 1], ops[..n]) && !WrapsAt(run, ops, n))
            && (InvAll(run[..n + 1]) ==> Inv(run[n]))
  {
    hide Inv, RunsToMax;
    var n := |ops| - 1;
    var run', ops' := run[..n + 1], ops[..n];
    assert run == run' + [run[n + 1]];
    assert forall i :: 0 <= i <= n ==> run'[i] == run[i];
    assert forall k :: 0 <= k < n ==> (WrapsAt(run', ops', k) <==> WrapsAt(run, ops, k));
  }

  ghost predicate NoneAtMax(m: multiset<Tx>) { forall t :: t in m ==> t.nonce < MAX_NONCE }

  predicate EnqueuesMax(op: Op) { op.Enqueue? && op.tx.nonce == MAX_NONCE }

  lemma LowOf(s: State) returns (low: U64)
    requires RunsToMax(s)
    ensures low <= s.nextNonce && AllFrom(s.enqueued, low) && HasNonce(s.enqueued, low)
    ensures forall n: U64 :: low <= n ==> HasNonce(s.enqueued, n)
    ensures HasNonce(s.enqueued, MAX_NONCE)
  {
    low :| low <= s.nextNonce && AllFrom(s.enqueued, low) && forall n: U64 :: low <= n ==> HasNonce(s.enqueued, n);
  }

  lemma ToMaxHasAll(s: State, first: U64, n: U64)
    requires RunsToMax(s) && HasNonce(s.enqueued, first) && first <= n
    ensures HasNonce(s.enqueued, n)
  {
    var low := LowOf(s);
    var t :| t in s.enqueued && t.nonce == first;
    assert low <= t.nonce;
  }

  lemma NoneAtMaxKept(s: State, op: Op, s': State)
    requires NoneAtMax(s.enqueued) && Step(s, op, s') && !EnqueuesMax(op)
    ensures NoneAtMax(s'.enqueued) && !RunsToMax(s)
  {
    if RunsToMax(s) {
      var low := LowOf(s);
      assert false;
    }
    forall t | t in s'.enqueued
      ensures t in s.enqueued || (op.Enqueue? && t == op.tx)
    {
    }
  }

  /** In every run of an account that is never handed the largest nonce, the invariant holds in
      every state and nextNonce never falls. */
  lemma {:induction false} RunKeepsInv(run: seq<State>, ops: seq<Op>, i: nat)
    requires IsRun(run, ops) && i <= |ops|
    requires Inv(run[0]) && NoneAtMax(run[0].enqueued) && forall k :: 0 <= k < |ops| ==> !EnqueuesMax(ops[k])
    ensures Inv(run[i]) && NoneAtMax(run[i].enqueued)
    ensures forall k :: 0 <= k <= i ==> run[k].nextNonce <= run[i].nextNonce
  {
    hide Inv, Step, IsRun, NoneAtMax, RunsToMax;
    PrefixIsRun(run, ops, 0);
    if i > 0 {
      RunKeepsInv(run, ops, i - 1);
      StepAt(run, ops, i - 1);
      NoneAtMaxKept(run[i - 1], ops[i - 1], run[i]);
      StepKeepsInvIff(run[i - 1], ops[i - 1], run[i]);
    }
  }

  /** An account that expects the largest nonce: enqueueing and promoting one transaction with
      it loses the invariant, and nextNonce still expects it. */
  lemma MaxNonceBreaksRun(tx: Tx, limit: nat) returns (run: seq<State>)
    requires tx.nonce == MAX_NONCE && limit > 0
    ensures IsRun(run, [Enqueue(tx), Promote]) && run[0] == State(multiset{}, multiset{}, MAX_NONCE, limit)
    ensures Inv(run[0]) && Inv(run[1]) && RunsToMax(run[1])
    ensures !Inv(run[2]) && run[2].nextNonce == MAX_NONCE && tx in run[2].promoted
  {
    var s := State(multiset{tx}, multiset{}, MAX_NONCE, limit);
    var s' := State(multiset{}, multiset{tx}, MAX_NONCE, limit);
    run := [State(multiset{}, multiset{}, MAX_NONCE, limit), s, s'];
    assert EnqueueStep(run[0], tx, s, None);
    assert tx in s.enqueued;
    assert HasNonce(s.enqueued, MAX_NONCE);
    assert RunsToMax(s) by {
      assert AllFrom(s.enqueued, MAX_NONCE);
      assert forall n: U64 :: MAX_NONCE <= n ==> HasNonce(s.enqueued, n);
    }
    assert multiset([tx]) == multiset{tx};
    assert WrapStep(s, s', [tx], []);
    WrapLosesInv(s, s', [tx], []);
    var ops := [Enqueue(tx), Promote];
    assert Step(run[0], ops[0], run[1]) && Step(run[1], ops[1], run[2]);
  }

  // ---------------------------------------------------------------------------
  // The account object
  // ---------------------------------------------------------------------------

  /** The promotion loop: some of all has been promoted or pruned, left is still enqueued. */
  ghost predicate Promoting(all: multiset<Tx>, left: multiset<Tx>, first: U64, promoted: seq<Tx>, pruned: seq<Tx>)
  {
    var next := first + |promoted|;
    && all == multiset(promoted) + multiset(pruned) + left
    && next <= TWO64
    && CountsUp(promoted, first)
    && (forall t :: t in promoted ==> BestPriced(t, all))
    && (forall u :: u in pruned ==> SharesNonce(u, promoted))
    && (forall t :: t in left ==> t.nonce >= if next < TWO64 then next else MAX_NONCE)
  }

  lemma DoneIsBelow(first: U64, promoted: seq<Tx>, pruned: seq<Tx>)
    requires CountsUp(promoted, first) && forall u :: u in pruned ==> SharesNonce(u, promoted)
    ensures forall u :: u in promoted || u in pruned ==> u.nonce < first + |promoted|
  {
    forall u | u in pruned
      ensures u.nonce < first + |promoted|
    {
      var t :| t in promoted && t.nonce == u.nonce;
    }
  }

  /** The first of what is left is the best priced of its nonce among all. */
  lemma FirstIsBestPriced(all: multiset<Tx>, left: multiset<Tx>, first: U64, promoted: seq<Tx>, pruned: seq<Tx>, tx: Tx)
    requires Promoting(all, left, first, promoted, pruned)
    requires tx.nonce == first + |promoted| && forall u :: u in left ==> !TxLess(u, tx)
    ensures BestPriced(tx, all)
  {
    DoneIsBelow(first, promoted, pruned);
    forall u | u in all && u.nonce == tx.nonce
      ensures u.gasPrice <= tx.gasPrice
    {
      assert u in left;
    }
  }

  lemma SharesNonceGrows(promoted: seq<Tx>, pruned: seq<Tx>, tx: Tx, gone: seq<Tx>)
    requires forall u :: u in pruned ==> SharesNonce(u, promoted)
    requires forall u :: u in gone ==> u.nonce == tx.nonce
    ensures forall u :: u in pruned + gone ==> SharesNonce(u, promoted + [tx])
  {
    forall u | u in pruned + gone
      ensures SharesNonce(u, promoted + [tx])
    {
      if u in gone {
        assert tx in promoted + [tx];
      } else {
        var t :| t in promoted && t.nonce == u.nonce;
        assert t in promoted + [tx];
      }
    }
  }

  lemma PromoteOne(all: multiset<Tx>, left: multiset<Tx>, first: U64, promoted: seq<Tx>, pruned: seq<Tx>,
                   tx: Tx, gone: seq<Tx>, left': multiset<Tx>)
    requires Promoting(all, left, first, promoted, pruned)
    requires tx.nonce == first + |promoted| && left == multiset{tx} + multiset(gone) + left'
    requires forall u :: u in left ==> !TxLess(u, tx)
    requires forall u :: u in gone ==> u.nonce < (tx.nonce + 1) % TWO64
    requires forall u :: u in left' ==> u.nonce >= (tx.nonce + 1) % TWO64
    ensures Promoting(all, left', first, promoted + [tx], pruned + gone)
  {
    hide BestPriced, SharesNonce, TxLess;
    FirstIsBestPriced(all, left, first, promoted, pruned, tx);
    forall u | u in gone
      ensures u.nonce == tx.nonce
    {
      assert u in multiset(gone);
      assert u in left;
    }
    SharesNonceGrows(promoted, pruned, tx, gone);
    assert forall u :: u in left' ==> u in left;
    assert multiset(promoted + [tx]) == multiset(promoted) + multiset{tx};
    assert multiset(pruned + gone) == multiset(pruned) + multiset(gone);
  }

  lemma NothingPromoted(all: multiset<Tx>, first: U64)
    requires forall t :: t in all ==> first <= t.nonce
    ensures Promoting(all, all, first, [], [])
  {
  }

  /** A transaction with the expected nonce is left only while the nonce has not wrapped. */
  lemma NotWrapped(all: multiset<Tx>, left: multiset<Tx>, first: U64, promoted: seq<Tx>, pruned: seq<Tx>, t: Tx)
    requires Promoting(all, left, first, promoted, pruned)
    requires t in left && t.nonce == (first + |promoted|) % TWO64
    ensures t.nonce == first + |promoted|
  {
  }

  /** The transactions were added to the promoted ones. */
  ghost predicate Moved(before: multiset<Tx>, after: multiset<Tx>, moved: seq<Tx>)
  {
    after == before + multiset(moved)
  }

  lemma MovedNone(m: multiset<Tx>)
    ensures Moved(m, m, [])
  {
  }

  lemma MovedOne(before: multiset<Tx>, middle: multiset<Tx>, after: multiset<Tx>, moved: seq<Tx>, tx: Tx)
    requires Moved(before, middle, moved) && after == middle + multiset{tx}
    ensures Moved(before, after, moved + [tx])
  {
  }

  lemma LeftIsBeyond(all: multiset<Tx>, left: multiset<Tx>, first: U64, promoted: seq<Tx>, pruned: seq<Tx>,
                     next: U64, head: Option<Tx>)
    requires Promoting(all, left, first, promoted, pruned) && next == (first + |promoted|) % TWO64
    requires head.None? ==> left == multiset{}
    requires head.Some? ==>
               && head.value.nonce != next && head.value in left
               && forall t :: t in left ==> head.value.nonce <= t.nonce
    ensures forall t :: t in left ==> t.nonce != next
  {
  }

  class Account {
    const enqueued: Queue
    const promoted: Queue
    const maxEnqueued: nat
    var nextNonce: U64

    ghost predicate Valid()
      reads this, enqueued, promoted
    {
      enqueued != promoted && enqueued.Valid() && promoted.Valid()
    }

    ghost function View(): State
      reads this, enqueued, promoted
    {
      State(multiset(enqueued.queue), multiset(promoted.queue), nextNonce, maxEnqueued)
    }

    constructor (nonce: U64, limit: nat)
      ensures Valid() && fresh(enqueued) && fresh(promoted)
      ensures View() == State(multiset{}, multiset{}, nonce, limit)
    {
      enqueued := new Queue();
      promoted := new Queue();
      maxEnqueued := limit;
      nextNonce := nonce;
    }

    method Enqueue(tx: Tx) returns (error: Option<EnqueueError>)
      requires Valid()
      modifies enqueued
      ensures Valid()
      ensures EnqueueStep(old(View()), tx, View(), error)
      ensures error == Some(MaxEnqueuedLimitReached) <==> |old(enqueued.queue)| == maxEnqueued
      ensures error == Some(NonceTooLow) <==> |old(enqueued.queue)| != maxEnqueued && tx.nonce < nextNonce
      ensures multiset(enqueued.queue)
              == multiset(old(enqueued.queue)) + if error.None? then multiset{tx} else multiset{}
    {
      if |enqueued.queue| == maxEnqueued {
        return Some(MaxEnqueuedLimitReached);
      }
      if tx.nonce < nextNonce {
        return Some(NonceTooLow);
      }
      enqueued.Push(tx);
      return None;
    }

    /** Aligns the account with a new nonce; asks for a promotion of the sender exactly when
        the nonce moved and a transaction with that very nonce is waiting. */
    method Reset(nonce: U64) returns (prunedPromoted: seq<Tx>, prunedEnqueued: seq<Tx>, signal: Option<nat>)
      requires Valid()
      modifies this, enqueued, promoted
      ensures Valid()
      ensures ResetStep(old(View()), nonce, View(), prunedPromoted, prunedEnqueued)
      ensures nextNonce == if nonce > old(nextNonce) then nonce else old(nextNonce)
      ensures forall t :: multiset(promoted.queue)[t] ==
                          if t.nonce >= nonce then multiset(old(promoted.queue))[t] else 0
      ensures forall t :: multiset(enqueued.queue)[t] ==
                          if t.nonce >= nonce || nonce <= old(nextNonce) then multiset(old(enqueued.queue))[t] else 0
      ensures signal.Some? <==> nonce > old(nextNonce) && HasNonce(View().enqueued, nonce)
      ensures signal.Some? ==> exists t :: t in View().enqueued && t.nonce == nonce && t.from == signal.value
    {
      prunedEnqueued, signal := [], None;
      prunedPromoted := promoted.Prune(nonce);
      SplitCounts(multiset(old(promoted.queue)), nonce, multiset(promoted.queue), prunedPromoted);
      if nonce <= nextNonce {
        return;
      }
      prunedEnqueued := enqueued.Prune(nonce);
      SplitCounts(multiset(old(enqueued.queue)), nonce, multiset(enqueued.queue), prunedEnqueued);
      nextNonce := nonce;
      var first := enqueued.Peek();
      if first.Some? {
        assert first.value in multiset(enqueued.queue);
        forall t | t in enqueued.queue && t.nonce == nonce
          ensures first.value.nonce == nonce
        {
          enqueued.PeekIsLeast(t);
        }
        if first.value.nonce == nonce {
          signal := Some(first.value.from);
        }
      }
    }

    /** Moves the run of next expected transactions from enqueued to promoted. The step is
        the promised one exactly when the enqueued nonces do not run up to the largest one:
        there `nonce + 1` wraps to zero and nextNonce stays behind. */
    method Promote() returns (moved: seq<Tx>, pruned: seq<Tx>)
      requires Valid()
      modifies this, enqueued, promoted
      ensures Valid()
      ensures PromoteStep(old(View()), View(), moved, pruned) <==> !RunsToMax(old(View()))
      ensures RunsToMax(old(View())) ==> WrapStep(old(View()), View(), moved, pruned)
    {
      hide PromoteStep, WrapStep, RunsToMax, Promoting;
      moved, pruned := [], [];
      FirstHasLeastNonce();
      if |enqueued.queue| == 0 || enqueued.queue[0].nonce > nextNonce {
        NothingToPromote(View());
        return;
      }
      var current, first := nextNonce, enqueued.queue[0].nonce;
      var next;
      moved, pruned, next := PromoteRun(first);
      if next > current {
        nextNonce := next;
      }
      Promoted(old(View()), View(), moved, pruned, first);
    }

    method Perform(op: Op)
      requires Valid()
      modifies this, enqueued, promoted
      ensures Valid() && Step(old(View()), op, View())
    {
      hide EnqueueStep, ResetStep, PromoteStep, WrapStep, RunsToMax, Queue.Valid;
      match op {
        case Enqueue(tx) =>
          var error := Enqueue(tx);
        case Reset(nonce) =>
          var pp, pe, _ := Reset(nonce);
        case Promote =>
          var moved, pruned := Promote();
      }
    }

    /** Every sequence of calls is a run; an account that is never handed the largest nonce
        keeps the invariant. */
    method Replay(ops: seq<Op>) returns (ghost run: seq<State>)
      requires Valid()
      modifies this, enqueued, promoted
      ensures Valid() && IsRun(run, ops) && run[0] == old(View()) && run[|ops|] == View()
      ensures old(Inv(View()) && NoneAtMax(View().enqueued)) && (forall k :: 0 <= k < |ops| ==> !EnqueuesMax(ops[k]))
              ==> Inv(View())
    {
      hide Step, Inv, NoneAtMax;
      run := [View()];
      for i := 0 to |ops|
        invariant Valid() && |run| == i + 1 && run[0] == old(View()) && run[i] == View()
        invariant forall k :: 0 <= k < i ==> Step(run[k], ops[k], run[k + 1])
      {
        Perform(ops[i]);
        run := run + [View()];
      }
      if Inv(run[0]) && NoneAtMax(run[0].enqueued) && forall k :: 0 <= k < |ops| ==> !EnqueuesMax(ops[k]) {
        RunKeepsInv(run, ops, |ops|);
      }
    }

    lemma FirstHasLeastNonce()
      requires Valid()
      ensures forall t :: t in multiset(enqueued.queue) ==> enqueued.queue[0].nonce <= t.nonce
      ensures enqueued.queue != [] ==> enqueued.queue[0] in multiset(enqueued.queue)
    {
      forall t | t in enqueued.queue
        ensures enqueued.queue[0].nonce <= t.nonce
      {
        enqueued.PeekIsLeast(t);
      }
    }

    /** The loop itself, from the first nonce to the end of the run. */
    method PromoteRun(first: U64) returns (moved: seq<Tx>, pruned: seq<Tx>, next: U64)
      requires Valid() && enqueued.queue != [] && enqueued.queue[0].nonce == first
      requires forall t :: t in multiset(enqueued.queue) ==> first <= t.nonce
      modifies enqueued, promoted
      ensures Valid()
      ensures moved != [] && next == (first + |moved|) % TWO64
      ensures Promoting(multiset(old(enqueued.queue)), multiset(enqueued.queue), first, moved, pruned)
      ensures Moved(multiset(old(promoted.queue)), multiset(promoted.queue), moved)
      ensures forall t :: t in multiset(enqueued.queue) ==> t.nonce != next
    {
      hide Promoting, Moved, TxLess, IsHeap, Queue.Valid;
      MovedNone(multiset(promoted.queue));
      moved, pruned, next := [], [], first;
      assert Promoting(multiset(enqueued.queue), multiset(enqueued.queue), first, moved, pruned) by {
        NothingPromoted(multiset(enqueued.queue), first);
      }
      while true
        invariant Valid() && next == (first + |moved|) % TWO64
        invariant Promoting(multiset(old(enqueued.queue)), multiset(enqueued.queue), first, moved, pruned)
        invariant Moved(multiset(old(promoted.queue)), multiset(promoted.queue), moved)
        invariant moved == [] ==> enqueued.queue != [] && enqueued.queue[0].nonce == first
        decreases |enqueued.queue|
      {
        if |enqueued.queue| == 0 || enqueued.queue[0].nonce != next {
          break;
        }
        ghost var before := multiset(promoted.queue);
        var tx, gone := PromoteNext(multiset(old(enqueued.queue)), first, moved, pruned);
        MovedOne(multiset(old(promoted.queue)), before, multiset(promoted.queue), moved, tx);
        next := (tx.nonce + 1) % TWO64;
        moved, pruned := moved + [tx], pruned + gone;
      }
      FirstHasLeastNonce();
      LeftIsBeyond(multiset(old(enqueued.queue)), multiset(enqueued.queue), first, moved, pruned, next,
                   if enqueued.queue == [] then None else Some(enqueued.queue[0]));
    }

    /** One round of the loop extends the promotion by one transaction. */
    method PromoteNext(ghost all: multiset<Tx>, ghost first: U64, ghost moved: seq<Tx>, ghost pruned: seq<Tx>)
        returns (tx: Tx, gone: seq<Tx>)
      requires Valid() && enqueued.queue != [] && enqueued.queue[0].nonce == (first + |moved|) % TWO64
      requires Promoting(all, multiset(enqueued.queue), first, moved, pruned)
      modifies enqueued, promoted
      ensures Valid() && |enqueued.queue| < |old(enqueued.queue)|
      ensures tx.nonce == first + |moved|
      ensures Promoting(all, multiset(enqueued.queue), first, moved + [tx], pruned + gone)
      ensures multiset(promoted.queue) == multiset(old(promoted.queue)) + multiset{tx}
    {
      hide Promoting, TxLess, IsHeap, Queue.Valid;
      ghost var left := multiset(enqueued.queue);
      assert enqueued.queue[0] in left;
      NotWrapped(all, left, first, moved, pruned, enqueued.queue[0]);
      tx, gone := PromoteFirst();
      PromoteOne(all, left, first, moved, pruned, tx, gone, multiset(enqueued.queue));
      assert |left| == 1 + |gone| + |enqueued.queue|;
    }

    /** One round of the loop: pops the first transaction over to promoted and prunes what
        is below its successor. */
    method PromoteFirst() returns (tx: Tx, gone: seq<Tx>)
      requires Valid() && enqueued.queue != []
      modifies enqueued, promoted
      ensures Valid()
      ensures tx == old(enqueued.queue[0])
      ensures multiset(old(enqueued.queue)) == multiset{tx} + multiset(gone) + multiset(enqueued.queue)
      ensures multiset(promoted.queue) == multiset(old(promoted.queue)) + multiset{tx}
      ensures forall u :: u in multiset(old(enqueued.queue)) ==> !TxLess(u, tx)
      ensures forall u :: u in gone ==> u.nonce < (tx.nonce + 1) % TWO64
      ensures forall u :: u in enqueued.queue ==> u.nonce >= (tx.nonce + 1) % TWO64
    {
      forall u | u in enqueued.queue
        ensures !TxLess(u, enqueued.queue[0])
      {
        enqueued.PeekIsLeast(u);
      }
      var r := enqueued.Pop();
      tx := r.value;
      promoted.Push(tx);
      gone := enqueued.Prune((tx.nonce + 1) % TWO64);
    }
  }

  lemma NothingToPromote(s: State)
    requires forall t :: t in s.enqueued ==> t.nonce > s.nextNonce
    ensures PromoteStep(s, s, [], []) && !RunsToMax(s)
  {
    if RunsToMax(s) {
      var low := LowOf(s);
      assert false;
    }
  }

  /** What the loop ends with: the run went up to the largest nonce exactly when the enqueued
      nonces do. */
  lemma EndOfRun(s: State, left: multiset<Tx>, moved: seq<Tx>, pruned: seq<Tx>, first: U64)
    requires Promoting(s.enqueued, left, first, moved, pruned) && first <= s.nextNonce && moved != []
    requires AllFrom(s.enqueued, first) && forall t :: t in left ==> t.nonce != (first + |moved|) % TWO64
    ensures RunsToMax(s) <==> first + |moved| == TWO64
  {
    var next := first + |moved|;
    assert HasNonce(s.enqueued, first) by {
      assert moved[0] in multiset(moved) && moved[0] in s.enqueued;
    }
    if next == TWO64 {
      forall n: U64 | first <= n
        ensures HasNonce(s.enqueued, n)
      {
        assert moved[n - first] in multiset(moved);
        assert moved[n - first] in s.enqueued && moved[n - first].nonce == n;
      }
    } else {
      DoneIsBelow(first, moved, pruned);
      forall t | t in s.enqueued
        ensures t.nonce != next
      {
        assert t in moved || t in pruned || t in left;
      }
      if RunsToMax(s) {
        ToMaxHasAll(s, first, next);
        assert false;
      }
    }
  }

  /** The loop's end state is a promotion step unless the nonce wrapped. */
  lemma Promoted(s: State, s': State, moved: seq<Tx>, pruned: seq<Tx>, first: U64)
    requires Promoting(s.enqueued, s'.enqueued, first, moved, pruned)
    requires first <= s.nextNonce && moved != [] && (forall t :: t in s.enqueued ==> first <= t.nonce)
    requires s'.promoted == s.promoted + multiset(moved) && s'.maxEnqueued == s.maxEnqueued
    requires var next := (first + |moved|) % TWO64;
             && (forall t :: t in s'.enqueued ==> t.nonce != next)
             && s'.nextNonce == (if next > s.nextNonce then next else s.nextNonce)
    ensures PromoteStep(s, s', moved, pruned) <==> !RunsToMax(s)
    ensures RunsToMax(s) ==> WrapStep(s, s', moved, pruned)
  {
    EndOfRun(s, s'.enqueued, moved, pruned, first);
    hide RunsToMax, BestPriced, SharesNonce;
    assert moved[0].nonce == first;
    assert exists t :: t in s.enqueued && t.nonce <= s.nextNonce by {
      assert moved[0] in multiset(moved);
      assert moved[0] in s.enqueued;
    }
    if first + |moved| == TWO64 {
      assert WrapStep(s, s', moved, pruned);
      assert s'.nextNonce != first + |moved|;
    } else {
      assert PromoteStep(s, s', moved, pruned);
    }
  }
}
