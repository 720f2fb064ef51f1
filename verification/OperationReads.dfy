/** What the state operations mean to a reader: the public reads of every address after an
    operation, in terms of the reads before it and of nothing else. */
module OperationReads {
  import opened Wrappers
  import opened WorldState
  import opened Words

  /** `setCode` is the code set in this transaction, if any. */
  datatype View = View(exists_: bool, balance: int, nonce: U64, codeHash: Digest, suicided: bool,
                       setCode: Option<seq<Byte>>)

  /** What a storage slot reads as now, and as committed. */
  datatype SlotView = SlotView(current: Word, original: Word)

  function Unwritten(w: Word): SlotView { SlotView(w, w) }

  const EMPTY_SLOT := SlotView(ZERO_WORD, ZERO_WORD)
  const ABSENT := View(false, 0, 0, ZeroDigest, false, None)
  const CREATED := View(true, 0, 0, EMPTY_CODE_HASH, false, None)

  function SlotAt(base: Base, ov: Overlay, a: Address, key: Word): SlotView
  {
    SlotView(GetState(base, ov, a, key), GetCommittedState(base, ov, a, key))
  }

  function ViewOf(base: Base, ov: Overlay, a: Address): View
  {
    View(Exist(base, ov, a), GetBalance(base, ov, a), GetNonce(base, ov, a), GetCodeHash(base, ov, a),
         HasSuicided(base, ov, a), GetSetCode(base, ov, a))
  }

  /** Any update brings an account into being. */
  function Touched(v: View): View { if v.exists_ then v else CREATED }

  function Target(op: Op): Option<Address>
  {
    match op
    case AddBalance(a, _) => Some(a)
    case SubBalance(a, _) => Some(a)
    case SetBalance(a, _) => Some(a)
    case AddSealingReward(a, _) => Some(a)
    case SetNonce(a, _) => Some(a)
    case IncrNonce(a) => Some(a)
    case SetCode(a, _) => Some(a)
    case SetState(a, _, _) => Some(a)
    case SetStorage(a, _, _, _) => Some(a)
    case Suicide(a) => Some(a)
    case CreateAccount(a) => Some(a)
    case TouchAccount(a) => Some(a)
    case _ => None
  }

  /** The view of the operation's own address; `same` says that a storage write finds the
      value already there. */
  function ViewAfter(v: View, op: Op, same: bool): View
  {
    match op
    case AddBalance(_, amount) => Touched(v).(balance := Abs(v.balance + amount))
    case SubBalance(_, amount) =>
      if amount == 0 || v.balance < amount then v else Touched(v).(balance := v.balance - amount)
    case SetBalance(_, amount) => Touched(v).(balance := Abs(amount))
    case AddSealingReward(_, amount) =>
      if v.suicided then CREATED.(balance := Abs(amount)) else Touched(v).(balance := Abs(v.balance + amount))
    case SetNonce(_, nonce) => Touched(v).(nonce := nonce)
    case IncrNonce(_) => Touched(v).(nonce := (v.nonce + 1) % TWO64)
    case SetCode(_, code) => Touched(v).(codeHash := Keccak(code), setCode := Some(code))
    case SetStorage(_, _, _, _) => if same then v else Touched(v)
    case Suicide(_) => if v.exists_ then v.(balance := 0, suicided := true) else v
    case CreateAccount(_) => CREATED.(balance := v.balance)
    case SetState(_, _, _) => Touched(v)
    case TouchAccount(_) => Touched(v)
    case _ => v
  }

  /** The account starts over with empty storage. */
  predicate StartsOver(v: View, op: Op) { op.CreateAccount? || (op.AddSealingReward? && v.suicided) }

  predicate WritesSlot(op: Op, key: Word) { (op.SetState? || op.SetStorage?) && op.key == key }

  /** The clean-up gives up an account that was changed and is suicided or empty. */
  predicate GivenUp(v: View, deleteEmpty: bool)
  {
    && v.exists_
    && (v.suicided || (deleteEmpty && v.nonce == 0 && v.balance == 0 && v.codeHash == EMPTY_CODE_HASH))
  }

  /** An update leaves every other address as it was. */
  lemma OthersKeepReads(base: Base, ov: Overlay, op: Op, b: Address)
    requires !op.CleanDelete? && Target(op) != Some(b)
    ensures Lookup(base, Apply(base, ov, op), b) == Lookup(base, ov, b)
  {
  }

  predicate BalanceOp(op: Op) { op.AddBalance? || op.SubBalance? || op.SetBalance? || op.AddSealingReward? }

  predicate FieldOp(op: Op) { op.SetNonce? || op.IncrNonce? || op.SetCode? || op.SetState? || op.TouchAccount? }

  /** A storage write that finds the value already there. */
  predicate FindsSame(base: Base, ov: Overlay, op: Op)
  {
    op.SetStorage? && GetState(base, ov, op.a, op.key) == op.value
  }

  ghost predicate ReadsFollow(base: Base, ov: Overlay, op: Op)
    requires Target(op).Some?
  {
    var a := Target(op).value;
    ViewOf(base, Apply(base, ov, op), a) == ViewAfter(ViewOf(base, ov, a), op, FindsSame(base, ov, op))
  }

  lemma BalanceReads(base: Base, ov: Overlay, op: Op)
    requires BalanceOp(op)
    ensures ReadsFollow(base, ov, op)
  {
    hide GetState, ApplySetStorage, WithSlot, CleanObjects;
  }

  lemma FieldReads(base: Base, ov: Overlay, op: Op)
    requires FieldOp(op)
    ensures ReadsFollow(base, ov, op)
  {
    hide GetState, ApplySetStorage, CleanObjects;
  }

  lemma AccountReads(base: Base, ov: Overlay, op: Op)
    requires op.Suicide? || op.CreateAccount?
    ensures ReadsFollow(base, ov, op)
  {
    hide GetState, ApplySetStorage, WithSlot, CleanObjects;
  }

  lemma StorageReads(base: Base, ov: Overlay, op: Op)
    requires op.SetStorage?
    ensures ReadsFollow(base, ov, op)
  {
    hide GetState, GetCommittedState, RefundDelta, CleanObjects;
  }

  /** An update changes its own address as the reads say. */
  lemma TargetReads(base: Base, ov: Overlay, op: Op)
    requires Target(op).Some?
    ensures var a := Target(op).value;
            ViewOf(base, Apply(base, ov, op), a) == ViewAfter(ViewOf(base, ov, a), op, FindsSame(base, ov, op))
  {
    hide Apply, ViewOf, ViewAfter, FindsSame;
    if BalanceOp(op) {
      BalanceReads(base, ov, op);
    } else if FieldOp(op) {
      FieldReads(base, ov, op);
    } else if op.SetStorage? {
      StorageReads(base, ov, op);
    } else {
      AccountReads(base, ov, op);
    }
  }

  ghost predicate SlotsFollow(base: Base, ov: Overlay, op: Op, key: Word)
    requires Target(op).Some?
  {
    var a := Target(op).value;
    SlotAt(base, Apply(base, ov, op), a, key) == SlotAfter(ViewOf(base, ov, a), op, key, SlotAt(base, ov, a, key))
  }

  lemma BalanceSlots(base: Base, ov: Overlay, op: Op, key: Word)
    requires BalanceOp(op)
    ensures SlotsFollow(base, ov, op, key)
  {
    hide ApplySetStorage, WithSlot, CleanObjects;
  }

  lemma FieldSlots(base: Base, ov: Overlay, op: Op, key: Word)
    requires FieldOp(op)
    ensures SlotsFollow(base, ov, op, key)
  {
    hide ApplySetStorage, CleanObjects;
  }

  lemma AccountSlots(base: Base, ov: Overlay, op: Op, key: Word)
    requires op.Suicide? || op.CreateAccount?
    ensures SlotsFollow(base, ov, op, key)
  {
    hide ApplySetStorage, WithSlot, CleanObjects;
  }

  lemma TargetSlot(base: Base, ov: Overlay, op: Op, key: Word)
    requires Target(op).Some?
    ensures var a := Target(op).value;
            SlotAt(base, Apply(base, ov, op), a, key)
            == SlotAfter(ViewOf(base, ov, a), op, key, SlotAt(base, ov, a, key))
  {
    hide Apply, ViewOf, SlotAt;
    if BalanceOp(op) {
      BalanceSlots(base, ov, op, key);
    } else if FieldOp(op) {
      FieldSlots(base, ov, op, key);
    } else if op.SetStorage? {
      StorageWriteReads(base, ov, op, key);
    } else {
      AccountSlots(base, ov, op, key);
    }
  }

  lemma StorageWriteReads(base: Base, ov: Overlay, op: Op, key: Word)
    requires op.SetStorage?
    ensures var slot := SlotAt(base, ov, op.a, key);
            SlotAt(base, Apply(base, ov, op), op.a, key) == if op.key == key then slot.(current := op.value) else slot
  {
    hide RefundDelta;
  }

  lemma CleanUpReads(base: Base, ov: Overlay, deleteEmpty: bool, b: Address, key: Word)
    ensures var ov' := Apply(base, ov, CleanDelete(deleteEmpty));
            var v := ViewOf(base, ov, b);
            if b in ov.objects && GivenUp(v, deleteEmpty)
            then ViewOf(base, ov', b) == ABSENT && SlotAt(base, ov', b, key) == EMPTY_SLOT
            else ViewOf(base, ov', b) == v && SlotAt(base, ov', b, key) == SlotAt(base, ov, b, key)
  {
  }

  // ---------------------------------------------------------------------------
  // The plain world
  // ---------------------------------------------------------------------------

  /** The state without journal, copies or tries: every read is a function that a write
      updates at once. */
  datatype World = World(
    view: Address -> View, slot: (Address, Word) -> SlotView, changed: set<Address>, refund: U64, logs: seq<Log>)

  function ViewOfAccount(a: Account): View { View(true, Abs(a.balance), a.nonce, a.codeHash, false, None) }

  ghost function FromBase(base: Base): World
  {
    World((a: Address) => if a in base.accounts then ViewOfAccount(base.accounts[a]) else ABSENT,
          (a: Address, k: Word) =>
            if a in base.accounts then Unwritten(GetStorage(base, base.accounts[a].root, k)) else EMPTY_SLOT,
          {}, 0, [])
  }

  /** An operation that finds nothing to do. */
  ghost predicate Idle(w: World, op: Op)
    requires Target(op).Some?
  {
    var v := w.view(Target(op).value);
    || (op.SubBalance? && (op.amount == 0 || v.balance < op.amount))
    || (op.Suicide? && !v.exists_)
    || (op.SetStorage? && w.slot(op.a, op.key).current == op.value)
  }

  function SlotAfter(v: View, op: Op, key: Word, slot: SlotView): SlotView
  {
    var kept := if StartsOver(v, op) then EMPTY_SLOT else slot;
    if WritesSlot(op, key) then kept.(current := op.value) else kept
  }

  ghost function Updated(w: World, op: Op): World
    requires Target(op).Some?
  {
    var a := Target(op).value;
    var v := w.view(a);
    var refund := if op.SetStorage?
      then (w.refund + RefundDelta(op.forks, w.slot(a, op.key).original, w.slot(a, op.key).current, op.value)) % TWO64
      else w.refund;
    World((b: Address) => if b == a then ViewAfter(v, op, false) else w.view(b),
          (b: Address, k: Word) => if b == a then SlotAfter(v, op, k, w.slot(b, k)) else w.slot(b, k),
          w.changed + {a}, refund, w.logs)
  }

  ghost function CleanedUp(w: World, deleteEmpty: bool): World
  {
    World((a: Address) => if a in w.changed && GivenUp(w.view(a), deleteEmpty) then ABSENT else w.view(a),
          (a: Address, k: Word) =>
            if a in w.changed && GivenUp(w.view(a), deleteEmpty) then EMPTY_SLOT else w.slot(a, k),
          w.changed, 0, w.logs)
  }

  ghost function Done(w: World, op: Op): World
  {
    match op
    case AddLog(log) => w.(logs := w.logs + [log])
    case TakeLogs => w.(logs := [])
    case AddRefund(gas) => w.(refund := (w.refund + gas) % TWO64)
    case CleanDelete(deleteEmpty) => CleanedUp(w, deleteEmpty)
    case _ => if Idle(w, op) then w else Updated(w, op)
  }

  /** Every read of the overlay but the logs gives what the world says. */
  ghost predicate AccountsReadAs(base: Base, ov: Overlay, w: World)
  {
    && (forall a :: ViewOf(base, ov, a) == w.view(a))
    && (forall a, k :: SlotAt(base, ov, a, k) == w.slot(a, k))
    && ov.objects.Keys == w.changed && GetRefund(ov) == w.refund
  }

  /** And the logs do too. */
  ghost predicate ReadsAs(base: Base, ov: Overlay, w: World)
  {
    AccountsReadAs(base, ov, w) && (if ov.logs.Some? then ov.logs.value else []) == w.logs
  }

  /** Accounts and refund do not depend on the logs. */
  lemma SameAccountsReadAs(base: Base, ov: Overlay, ov': Overlay, w: World)
    requires AccountsReadAs(base, ov, w) && SameAccounts(ov, ov')
    ensures AccountsReadAs(base, ov', w)
  {
    assert forall a :: Lookup(base, ov', a) == Lookup(base, ov, a);
    hide Lookup;
  }

  lemma IdleKeepsOverlay(base: Base, ov: Overlay, w: World, op: Op)
    requires ReadsAs(base, ov, w) && Target(op).Some?
    ensures Idle(w, op) ==> Apply(base, ov, op) == ov
    ensures !Idle(w, op) ==> Apply(base, ov, op).objects.Keys == ov.objects.Keys + {Target(op).value}
  {
  }

  lemma UpdateReads(base: Base, ov: Overlay, w: World, op: Op)
    requires ReadsAs(base, ov, w) && Target(op).Some? && !Idle(w, op)
    ensures ReadsAs(base, Apply(base, ov, op), Updated(w, op))
  {
    var a, ov', w' := Target(op).value, Apply(base, ov, op), Updated(w, op);
    assert ViewOf(base, ov, a) == w.view(a);
    IdleKeepsOverlay(base, ov, w, op);
    UpdateRefund(base, ov, w, op);
    TargetReads(base, ov, op);
    hide Apply, ViewAfter, Lookup, Idle;
    forall b
      ensures ViewOf(base, ov', b) == w'.view(b)
    {
      if b != a {
        OthersKeepReads(base, ov, op, b);
      }
    }
    forall b, k
      ensures SlotAt(base, ov', b, k) == w'.slot(b, k)
    {
      if b != a {
        OthersKeepReads(base, ov, op, b);
      } else {
        TargetSlot(base, ov, op, k);
      }
    }
  }

  lemma UpdateRefund(base: Base, ov: Overlay, w: World, op: Op)
    requires ReadsAs(base, ov, w) && Target(op).Some? && !Idle(w, op)
    ensures GetRefund(Apply(base, ov, op)) == Updated(w, op).refund && Apply(base, ov, op).logs == ov.logs
  {
    hide Lookup, GetState, GetCommittedState, ViewOf, WithSlot, RefundDelta, CleanObjects;
    if op.SetStorage? {
      assert SlotAt(base, ov, op.a, op.key) == w.slot(op.a, op.key);
    }
  }

  lemma CleanUpReadsAs(base: Base, ov: Overlay, w: World, deleteEmpty: bool)
    requires AccountsReadAs(base, ov, w)
    ensures AccountsReadAs(base, Apply(base, ov, CleanDelete(deleteEmpty)), CleanedUp(w, deleteEmpty))
    ensures Apply(base, ov, CleanDelete(deleteEmpty)).logs == ov.logs
  {
    var ov', w' := Apply(base, ov, CleanDelete(deleteEmpty)), CleanedUp(w, deleteEmpty);
    assert ov'.objects.Keys == ov.objects.Keys && GetRefund(ov') == 0 && ov'.logs == ov.logs;
    hide Apply, GivenUp, ViewOf, SlotAt;
    forall b: Address
      ensures ViewOf(base, ov', b) == w'.view(b)
    {
      CleanUpReads(base, ov, deleteEmpty, b, 0);
    }
    forall b: Address, k: Word
      ensures SlotAt(base, ov', b, k) == w'.slot(b, k)
    {
      assert ViewOf(base, ov, b) == w.view(b);
      CleanUpReads(base, ov, deleteEmpty, b, k);
    }
  }

  lemma OpReads(base: Base, ov: Overlay, w: World, op: Op)
    requires ReadsAs(base, ov, w)
    ensures ReadsAs(base, Apply(base, ov, op), Done(w, op))
  {
    if Target(op).Some? {
      IdleKeepsOverlay(base, ov, w, op);
      if !Idle(w, op) {
        UpdateReads(base, ov, w, op);
      }
      hide ReadsAs, Apply, Idle, Updated;
    } else if op.CleanDelete? {
      CleanUpReadsAs(base, ov, w, op.deleteEmpty);
      hide AccountsReadAs, Apply;
    } else {
      hide SlotAt, ViewOf;
      OthersReadAs(base, ov, w, op);
    }
  }

  /** Logs and the refund are not read through accounts. */
  lemma OthersReadAs(base: Base, ov: Overlay, w: World, op: Op)
    requires ReadsAs(base, ov, w) && (op.AddLog? || op.TakeLogs? || op.AddRefund?)
    ensures ReadsAs(base, Apply(base, ov, op), Done(w, op))
  {
    forall a: Address
      ensures Lookup(base, Apply(base, ov, op), a) == Lookup(base, ov, a)
    {
      OthersKeepReads(base, ov, op, a);
    }
    hide Lookup;
  }

  datatype History = History(current: World, saved: seq<World>)

  ghost function HistoryStep(h: History, c: Command): History
    requires c.RevertTo? ==> c.id < |h.saved|
  {
    match c
    case Do(op) => h.(current := Done(h.current, op))
    case TakeSnapshot => h.(saved := h.saved + [h.current])
    case RevertTo(id) => h.(current := h.saved[id])
  }

  ghost predicate HistoryReads(base: Base, j: Journal, h: History)
  {
    && ReadsAs(base, j.current, h.current) && |j.saved| == |h.saved|
    && forall i :: 0 <= i < |j.saved| ==> ReadsAs(base, j.saved[i], h.saved[i])
  }

  ghost function HistoryRun(h: History, cs: seq<Command>): Option<History>
    decreases |cs|
  {
    if cs == [] then Some(h)
    else if cs[0].RevertTo? && cs[0].id >= |h.saved| then None
    else HistoryRun(HistoryStep(h, cs[0]), cs[1..])
  }

  /** Any run of operations, snapshots and reverts reads at its end as the same run of the
      plain world, in which a snapshot keeps the whole world and a revert puts it back. */
  lemma {:induction false} RunReadsAsWorld(base: Base, j: Journal, h: History, cs: seq<Command>)
    requires HistoryReads(base, j, h) && CanRun(base, j, cs)
    ensures HistoryRun(h, cs).Some? && HistoryReads(base, Exec(base, j, cs), HistoryRun(h, cs).value)
    decreases |cs|
  {
    if cs != [] {
      StepReads(base, j, h, cs[0]);
      hide HistoryReads, Step, HistoryStep;
      RunReadsAsWorld(base, Step(base, j, cs[0]), HistoryStep(h, cs[0]), cs[1..]);
    }
  }

  lemma StepReads(base: Base, j: Journal, h: History, c: Command)
    requires HistoryReads(base, j, h) && Enabled(j, c)
    ensures (c.RevertTo? ==> c.id < |h.saved|) && HistoryReads(base, Step(base, j, c), HistoryStep(h, c))
  {
    hide ReadsAs, Apply, Done;
    if c.Do? {
      OpReads(base, j.current, h.current, c.op);
    }
  }

  /** From the committed state on. */
  lemma RunFromBaseReads(base: Base, cs: seq<Command>)
    requires CanRun(base, Journal(EMPTY_OVERLAY, [], []), cs)
    ensures var h := HistoryRun(History(FromBase(base), []), cs);
            h.Some? && ReadsAs(base, Exec(base, Journal(EMPTY_OVERLAY, [], []), cs).current, h.value.current)
  {
    RunReadsAsWorld(base, Journal(EMPTY_OVERLAY, [], []), History(FromBase(base), []), cs);
  }
}
