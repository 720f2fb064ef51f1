/** The bounded parallel executor of the blockchain package as a step system: a main loop that
    starts one worker per transaction, worker slots shared with other calls, and an error
    channel of capacity one that the last worker closes. */
module ParallelExecute {
  import opened Wrappers

  datatype Tx = Tx(hash: nat, gas: nat)
  datatype Receipt = Receipt(txHash: nat, success: bool, gasUsed: nat)

  function ReceiptFor(t: Tx): Receipt { Receipt(t.hash, true, t.gas) }

  /** The transactions of this call (not none) and the slots of the executor. */
  datatype Config = Config(txs: seq<Tx>, limit: nat)

  /** Where a worker is: started with a slot, past the context check, body done, slot given
      back, counted as the last one, gone. */
  datatype Worker = NotStarted | Begun | Checked | Finished | Released | Closing | Gone

  datatype Main = Looping | Waiting | Cancelled | Failed | Returned(receipts: seq<Option<Receipt>>)

  datatype State = State(
    main: Main, next: nat, workers: seq<Worker>, receipts: seq<Option<Receipt>>,
    buffered: bool, closed: bool, completed: nat, cancelled: bool,
    slots: nat, others: nat, panicked: bool)

  datatype Step =
    | Cancel | Spawn | AbortLoop | EndLoop | Receive | OtherAcquires | OtherReleases
    | CheckContext(i: nat) | SendError(i: nat) | StoreReceipt(i: nat) | ReleaseSlot(i: nat) | CountDone(i: nat)
    | CloseChannel(i: nat)

  function Start(c: Config, others: nat): State
  {
    State(Looping, 0, seq(|c.txs|, _ => NotStarted), seq(|c.txs|, _ => None),
          false, false, 0, false, others, others, false)
  }

  predicate At(s: State, i: nat, w: Worker) { i < |s.workers| && s.workers[i] == w }

  /** A worker step is enabled when its worker is there; only the main loop and other calls
      wait for a slot. */
  predicate Enabled(c: Config, s: State, step: Step)
  {
    match step
    case Cancel => true
    case Spawn => s.main == Looping && s.next < |c.txs| && s.slots < c.limit
    case AbortLoop => s.main == Looping && s.next < |c.txs| && s.cancelled
    case EndLoop => s.main == Looping && s.next == |c.txs|
    case Receive => s.main == Waiting && (s.buffered || s.closed)
    case OtherAcquires => s.slots < c.limit
    case OtherReleases => s.others > 0 && s.slots > 0
    case CheckContext(i) => At(s, i, Begun) && !s.cancelled
    case SendError(i) => At(s, i, Begun) && s.cancelled
    case StoreReceipt(i) => At(s, i, Checked)
    case ReleaseSlot(i) => At(s, i, Finished) && s.slots > 0
    case CountDone(i) => At(s, i, Released)
    case CloseChannel(i) => At(s, i, Closing)
  }

  function To(s: State, i: nat, w: Worker): State
    requires i < |s.workers|
  {
    s.(workers := s.workers[i := w])
  }

  /** Sending on a closed channel and closing it twice panic. */
  function After(c: Config, s: State, step: Step): State
    requires Enabled(c, s, step) && |s.workers| == |s.receipts| == |c.txs|
  {
    match step
    case Cancel => s.(cancelled := true)
    case Spawn => To(s, s.next, Begun).(next := s.next + 1, slots := s.slots + 1)
    case AbortLoop => s.(main := Cancelled)
    case EndLoop => s.(main := Waiting)
    case Receive => if s.buffered then s.(main := Failed, buffered := false) else s.(main := Returned(s.receipts))
    case OtherAcquires => s.(slots := s.slots + 1, others := s.others + 1)
    case OtherReleases => s.(slots := s.slots - 1, others := s.others - 1)
    case CheckContext(i) => To(s, i, Checked)
    case SendError(i) => To(s, i, Finished).(buffered := true, panicked := s.panicked || s.closed)
    case StoreReceipt(i) => To(s, i, Finished).(receipts := s.receipts[i := Some(ReceiptFor(c.txs[i]))])
    case ReleaseSlot(i) => To(s, i, Released).(slots := s.slots - 1)
    case CountDone(i) => To(s, i, if s.completed + 1 == |c.txs| then Closing else Gone).(completed := s.completed + 1)
    case CloseChannel(i) => To(s, i, Gone).(closed := true, panicked := s.panicked || s.closed)
  }

  // ---------------------------------------------------------------------------
  // Counting workers
  // ---------------------------------------------------------------------------

  predicate HoldsSlot(w: Worker) { w == Begun || w == Checked || w == Finished }
  predicate Counted(w: Worker) { w == Closing || w == Gone }
  predicate IsClosing(w: Worker) { w == Closing }

  function Count(ws: seq<Worker>, p: Worker -> bool): nat
  {
    if ws == [] then 0 else Count(ws[..|ws| - 1], p) + if p(ws[|ws| - 1]) then 1 else 0
  }

  lemma {:induction false} CountUpdate(ws: seq<Worker>, i: nat, w: Worker, p: Worker -> bool)
    requires i < |ws|
    ensures Count(ws[i := w], p) == Count(ws, p) - (if p(ws[i]) then 1 else 0) + (if p(w) then 1 else 0)
  {
    var n := |ws| - 1;
    if i < n {
      CountUpdate(ws[..n], i, w, p);
      assert ws[i := w][..n] == ws[..n][i := w];
    } else {
      assert ws[i := w][..n] == ws[..n];
    }
  }

  lemma {:induction false} CountAll(ws: seq<Worker>, p: Worker -> bool)
    ensures Count(ws, p) <= |ws|
    ensures Count(ws, p) == |ws| <==> forall i :: 0 <= i < |ws| ==> p(ws[i])
  {
    if ws != [] {
      CountAll(ws[..|ws| - 1], p);
    }
  }

  lemma {:induction false} CountSome(ws: seq<Worker>, p: Worker -> bool, i: nat)
    requires i < |ws| && p(ws[i])
    ensures Count(ws, p) > 0
  {
    if i < |ws| - 1 {
      CountSome(ws[..|ws| - 1], p, i);
    }
  }

  // ---------------------------------------------------------------------------
  // What every step keeps
  // ---------------------------------------------------------------------------

  /** Bookkeeping of workers, slots and the completion counter. */
  ghost predicate Tallied(c: Config, s: State)
  {
    && |s.workers| == |s.receipts| == |c.txs| && s.next <= |c.txs|
    && (forall i :: 0 <= i < |c.txs| ==> (s.workers[i] == NotStarted <==> s.next <= i))
    && s.slots == s.others + Count(s.workers, HoldsSlot)
    && s.slots <= c.limit
    && s.completed == Count(s.workers, Counted)
    && Count(s.workers, IsClosing) + (if s.closed then 1 else 0) == (if s.completed == |c.txs| then 1 else 0)
    && (s.main == Waiting || s.main == Failed || s.main.Returned? ==> s.next == |c.txs|)
  }

  predicate BodyDone(w: Worker) { w == Finished || w == Released || w == Closing || w == Gone }

  /** A finished worker left its own receipt, or its error is buffered or was received. */
  ghost predicate Accounted(c: Config, s: State)
    requires |s.workers| == |s.receipts| == |c.txs|
  {
    && !s.panicked
    && (forall i :: 0 <= i < |c.txs| && s.receipts[i].Some? ==> s.receipts[i] == Some(ReceiptFor(c.txs[i])))
    && (forall i :: 0 <= i < |c.txs| && BodyDone(s.workers[i]) && s.receipts[i].None? ==>
          s.buffered || s.main == Failed)
    && (s.main.Returned? ==> s.closed && AllReceipts(c, s.main.receipts))
    && (s.buffered || s.main == Failed || s.main == Cancelled ==> s.cancelled)
  }

  /** Every slot holds the receipt of its own transaction. */
  ghost predicate AllReceipts(c: Config, rs: seq<Option<Receipt>>)
  {
    |rs| == |c.txs| && forall i :: 0 <= i < |rs| ==> rs[i] == Some(ReceiptFor(c.txs[i]))
  }

  ghost predicate Inv(c: Config, s: State)
  {
    c.txs != [] && Tallied(c, s) && Accounted(c, s)
  }

  lemma {:induction false} CountNone(n: nat, p: Worker -> bool)
    requires !p(NotStarted)
    ensures Count(seq(n, _ => NotStarted), p) == 0
  {
    if n > 0 {
      CountNone(n - 1, p);
      assert seq(n, _ => NotStarted)[..n - 1] == seq(n - 1, _ => NotStarted);
    }
  }

  lemma StartInv(c: Config, others: nat)
    requires c.txs != [] && others <= c.limit
    ensures Inv(c, Start(c, others))
  {
    CountNone(|c.txs|, HoldsSlot);
    CountNone(|c.txs|, Counted);
    CountNone(|c.txs|, IsClosing);
  }

  /** While some worker is not counted the channel is open. */
  lemma OpenWhileRunning(c: Config, s: State, i: nat)
    requires Tallied(c, s) && c.txs != [] && i < |c.txs| && !Counted(s.workers[i])
    ensures !s.closed
  {
    CountAll(s.workers, Counted);
  }

  lemma ClosedMeansAllGone(c: Config, s: State, i: nat)
    requires Tallied(c, s) && s.closed && i < |c.txs|
    ensures s.workers[i] == Gone
  {
    CountAll(s.workers, Counted);
    if s.workers[i] == Closing {
      CountSome(s.workers, IsClosing, i);
    }
  }

  predicate WorkerStep(step: Step)
  {
    || step.CheckContext? || step.SendError? || step.StoreReceipt? || step.ReleaseSlot? || step.CountDone?
    || step.CloseChannel?
  }

  /** How the three tallies change when worker i moves to w. */
  function One(b: bool): nat { if b then 1 else 0 }

  lemma MoveTallies(s: State, i: nat, w: Worker)
    requires i < |s.workers|
    ensures var ws, was := s.workers[i := w], s.workers[i];
            && Count(ws, HoldsSlot) == Count(s.workers, HoldsSlot) - One(HoldsSlot(was)) + One(HoldsSlot(w))
            && Count(ws, Counted) == Count(s.workers, Counted) - One(Counted(was)) + One(Counted(w))
            && Count(ws, IsClosing) == Count(s.workers, IsClosing) - One(IsClosing(was)) + One(IsClosing(w))
            && Count(s.workers, Counted) <= |s.workers| - (if Counted(was) then 0 else 1)
            && (IsClosing(was) ==> Count(s.workers, IsClosing) > 0)
  {
    CountUpdate(s.workers, i, w, HoldsSlot);
    CountUpdate(s.workers, i, w, Counted);
    CountUpdate(s.workers, i, w, IsClosing);
    CountAll(s.workers, Counted);
    if IsClosing(s.workers[i]) {
      CountSome(s.workers, IsClosing, i);
    }
  }

  lemma WorkerStepKeepsTallied(c: Config, s: State, step: Step)
    requires c.txs != [] && Tallied(c, s) && Enabled(c, s, step) && WorkerStep(step)
    ensures Tallied(c, After(c, s, step))
  {
    hide Count;
    MoveTallies(s, step.i, After(c, s, step).workers[step.i]);
  }

  lemma StepKeepsTallied(c: Config, s: State, step: Step)
    requires c.txs != [] && Tallied(c, s) && Enabled(c, s, step)
    ensures Tallied(c, After(c, s, step))
  {
    hide Count;
    if WorkerStep(step) {
      WorkerStepKeepsTallied(c, s, step);
    } else if step.Spawn? {
      MoveTallies(s, s.next, Begun);
    }
  }

  lemma StepKeepsAccounted(c: Config, s: State, step: Step)
    requires Inv(c, s) && Enabled(c, s, step)
    ensures |After(c, s, step).workers| == |After(c, s, step).receipts| == |c.txs|
    ensures Accounted(c, After(c, s, step))
  {
    hide Count;
    if WorkerStep(step) {
      WorkerStepKeepsAccounted(c, s, step);
    } else {
      OtherStepKeepsAccounted(c, s, step);
    }
    hide Accounted, After;
  }

  lemma WorkerStepKeepsAccounted(c: Config, s: State, step: Step)
    requires Inv(c, s) && Enabled(c, s, step) && WorkerStep(step)
    ensures |After(c, s, step).workers| == |After(c, s, step).receipts| == |c.txs|
    ensures Accounted(c, After(c, s, step))
  {
    if step.SendError? {
      OpenWhileRunning(c, s, step.i);
    } else if step.CloseChannel? {
      CountSome(s.workers, IsClosing, step.i);
    }
    hide Count;
  }

  lemma OtherStepKeepsAccounted(c: Config, s: State, step: Step)
    requires Inv(c, s) && Enabled(c, s, step) && !WorkerStep(step)
    ensures |After(c, s, step).workers| == |After(c, s, step).receipts| == |c.txs|
    ensures Accounted(c, After(c, s, step))
  {
    hide Count;
    if step.Receive? && !s.buffered {
      forall i | 0 <= i < |c.txs|
        ensures s.receipts[i] == Some(ReceiptFor(c.txs[i]))
      {
        ClosedMeansAllGone(c, s, i);
      }
    }
  }

  // ---------------------------------------------------------------------------
  // Every interleaving
  // ---------------------------------------------------------------------------

  predicate CanRun(c: Config, s: State, steps: seq<Step>)
    requires |s.workers| == |s.receipts| == |c.txs|
    decreases |steps|
  {
    steps == [] || (Enabled(c, s, steps[0]) && CanRun(c, After(c, s, steps[0]), steps[1..]))
  }

  function Run(c: Config, s: State, steps: seq<Step>): State
    requires |s.workers| == |s.receipts| == |c.txs| && CanRun(c, s, steps)
    decreases |steps|
  {
    if steps == [] then s else Run(c, After(c, s, steps[0]), steps[1..])
  }

  lemma {:induction false} RunKeepsInv(c: Config, s: State, steps: seq<Step>)
    requires Inv(c, s) && CanRun(c, s, steps)
    ensures Inv(c, Run(c, s, steps))
    decreases |steps|
  {
    if steps != [] {
      StepKeepsTallied(c, s, steps[0]);
      StepKeepsAccounted(c, s, steps[0]);
      RunKeepsInv(c, After(c, s, steps[0]), steps[1..]);
    }
  }

  /** In every interleaving: the slots in use never exceed the limit, the error channel is
      never sent to after closing nor closed twice, a result without an error holds for each
      transaction, at its own index, a successful receipt with its hash and gas, and an error
      means cancellation. */
  lemma ExecuteIsSafe(c: Config, others: nat, steps: seq<Step>)
    requires c.txs != [] && others <= c.limit
    requires CanRun(c, Start(c, others), steps)
    ensures var s := Run(c, Start(c, others), steps);
            && s.slots == s.others + Count(s.workers, HoldsSlot) <= c.limit
            && !s.panicked
            && (s.main.Returned? ==>
                  && |s.main.receipts| == |c.txs|
                  && (forall i :: 0 <= i < |c.txs| ==>
                        && s.main.receipts[i].Some?
                        && s.main.receipts[i].value.txHash == c.txs[i].hash
                        && s.main.receipts[i].value.success
                        && s.main.receipts[i].value.gasUsed == c.txs[i].gas))
            && (s.main == Failed || s.main == Cancelled ==> s.cancelled)
  {
    StartInv(c, others);
    RunKeepsInv(c, Start(c, others), steps);
  }

  /** Transactions with different hashes get different receipts. */
  lemma ReceiptsTellApart(c: Config, others: nat, steps: seq<Step>, i: nat, j: nat)
    requires c.txs != [] && others <= c.limit
    requires CanRun(c, Start(c, others), steps)
    requires i < |c.txs| && j < |c.txs| && c.txs[i].hash != c.txs[j].hash
    ensures var s := Run(c, Start(c, others), steps);
            s.main.Returned? ==> |s.main.receipts| == |c.txs| && s.main.receipts[i] != s.main.receipts[j]
  {
    ExecuteIsSafe(c, others, steps);
  }

  /** The call is cancelled before transaction i passed its check. */
  predicate CancelledBefore(c: Config, s: State, i: nat)
    requires |s.workers| == |s.receipts| == |c.txs|
  {
    && i < |c.txs| && s.cancelled && s.receipts[i].None?
    && (s.workers[i] == NotStarted || s.workers[i] == Begun)
  }

  /** That transaction gets no receipt any more. */
  ghost predicate Unpaid(c: Config, s: State, i: nat)
  {
    && i < |s.workers| == |s.receipts| && s.cancelled && s.receipts[i].None? && s.workers[i] != Checked
    && !s.main.Returned?
  }

  lemma StepKeepsUnpaid(c: Config, s: State, step: Step, i: nat)
    requires Inv(c, s) && Unpaid(c, s, i) && Enabled(c, s, step)
    ensures Unpaid(c, After(c, s, step), i)
  {
    hide Count;
    StepKeepsAccounted(c, s, step);
  }

  lemma {:induction false} RunKeepsUnpaid(c: Config, s: State, steps: seq<Step>, i: nat)
    requires Inv(c, s) && Unpaid(c, s, i) && CanRun(c, s, steps)
    ensures Unpaid(c, Run(c, s, steps), i)
    decreases |steps|
  {
    if steps != [] {
      StepKeepsUnpaid(c, s, steps[0], i);
      StepKeepsTallied(c, s, steps[0]);
      StepKeepsAccounted(c, s, steps[0]);
      RunKeepsUnpaid(c, After(c, s, steps[0]), steps[1..], i);
    }
  }

  /** A call that is cancelled before one of its transactions passed its check gives that
      transaction no receipt and never returns without an error, whatever happens next. */
  lemma CancelledNeverReturns(c: Config, others: nat, before: seq<Step>, after: seq<Step>, i: nat)
    requires c.txs != [] && others <= c.limit
    requires CanRun(c, Start(c, others), before)
    requires var s := Run(c, Start(c, others), before);
             && |s.workers| == |s.receipts| == |c.txs|
             && CancelledBefore(c, s, i) && CanRun(c, s, after)
    ensures var s := Run(c, Run(c, Start(c, others), before), after);
            i < |s.receipts| && s.receipts[i].None? && !s.main.Returned?
  {
    StartInv(c, others);
    RunKeepsInv(c, Start(c, others), before);
    var s := Run(c, Start(c, others), before);
    OpenWhileRunning(c, s, i);
    hide Run, CanRun, Enabled, After, Count;
    RunKeepsUnpaid(c, s, after, i);
  }

  /** The main routine never waits in vain: while it waits for the channel, it can receive or
      some worker of this call can take a step. */
  lemma WaitingIsNeverStuck(c: Config, others: nat, steps: seq<Step>)
    requires c.txs != [] && others <= c.limit
    requires CanRun(c, Start(c, others), steps)
    requires Run(c, Start(c, others), steps).main == Waiting
    ensures var s := Run(c, Start(c, others), steps);
            exists step :: Enabled(c, s, step) && !step.Cancel? && !step.OtherAcquires? && !step.OtherReleases?
  {
    StartInv(c, others);
    RunKeepsInv(c, Start(c, others), steps);
    var s := Run(c, Start(c, others), steps);
    if s.closed {
      assert Enabled(c, s, Receive);
    } else {
      CountAll(s.workers, Counted);
      if i :| 0 <= i < |s.workers| && s.workers[i] != Gone {
        if HoldsSlot(s.workers[i]) {
          CountSome(s.workers, HoldsSlot, i);
        }
        var step := match s.workers[i]
          case Begun => if s.cancelled then SendError(i) else CheckContext(i)
          case Checked => StoreReceipt(i)
          case Finished => ReleaseSlot(i)
          case Released => CountDone(i)
          case Closing => CloseChannel(i)
          case _ => Cancel;
        assert Enabled(c, s, step);
      } else {
        NoneClosing(s.workers);
        assert false;
      }
    }
  }

  lemma {:induction false} NoneClosing(ws: seq<Worker>)
    requires forall i :: 0 <= i < |ws| ==> ws[i] == Gone
    ensures Count(ws, IsClosing) == 0
  {
    if ws != [] {
      NoneClosing(ws[..|ws| - 1]);
    }
  }
}
