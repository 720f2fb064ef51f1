/** Storage refunds, net-metered (the Specification sections of EIP-1283 and EIP-2200) or legacy:
    what the refund counter holds after any run before the first clean-up. */
module RefundAccounting {
  import opened WorldState
  import opened Words

  datatype Slot = Slot(a: Address, key: Word)
  datatype Write = Write(slot: Slot, value: Word)

  /** The storage slot before the transaction started. */
  function Original(base: Base, s: Slot): Word { GetState(base, EMPTY_OVERLAY, s.a, s.key) }

  /** The last value written to the slot, else its original value. */
  function Latest(base: Base, writes: seq<Write>, s: Slot): Word
  {
    if writes == [] then Original(base, s)
    else if writes[|writes| - 1].slot == s then writes[|writes| - 1].value
    else Latest(base, writes[..|writes| - 1], s)
  }

  /** The populated slots that now read zero. */
  function Cleared(base: Base, writes: seq<Write>): set<Slot>
  {
    set i | 0 <= i < |writes| && Original(base, writes[i].slot) != ZERO_WORD
            && Latest(base, writes, writes[i].slot) == ZERO_WORD :: writes[i].slot
  }

  /** The last write brought a changed slot back to its original value. */
  predicate LastIsReset(base: Base, writes: seq<Write>)
    requires writes != []
  {
    var w := writes[|writes| - 1];
    && w.value == Original(base, w.slot)
    && Latest(base, writes[..|writes| - 1], w.slot) != w.value
  }

  /** How many writes reset a slot whose original value is (fromZero) zero or not. */
  function Resets(base: Base, writes: seq<Write>, fromZero: bool): nat
  {
    if writes == [] then 0 else
      var w := writes[|writes| - 1];
      Resets(base, writes[..|writes| - 1], fromZero)
      + if LastIsReset(base, writes) && (Original(base, w.slot) == ZERO_WORD) == fromZero then 1 else 0
  }

  /** The forks under which refunds are net-metered: Istanbul, or Constantinople before
      Petersburg. */
  predicate NetMetered(f: Forks) { f.istanbul || (f.constantinople && !f.petersburg) }

  /** The writes that turned a value other than zero into zero. */
  function Clearings(base: Base, writes: seq<Write>): set<nat>
  {
    set i: nat | i < |writes| && writes[i].value == ZERO_WORD
                 && Latest(base, writes[..i], writes[i].slot) != ZERO_WORD
  }

  /** The refund promised for a history of writes: by the two proposals under net metering, else
      15000 for each clearing write. */
  function Owed(base: Base, forks: Forks, writes: seq<Write>): nat
  {
    if !NetMetered(forks) then 15000 * |Clearings(base, writes)| else
    15000 * |Cleared(base, writes)|
    + (if forks.istanbul then 19200 else 19800) * Resets(base, writes, true)
    + (if forks.istanbul then 4200 else 4800) * Resets(base, writes, false)
  }

  lemma ClearedMember(base: Base, writes: seq<Write>, s: Slot)
    ensures s in Cleared(base, writes)
            <==> Original(base, s) != ZERO_WORD && Latest(base, writes, s) == ZERO_WORD
  {
    if Original(base, s) != ZERO_WORD && Latest(base, writes, s) == ZERO_WORD {
      var i := LatestWitness(base, writes, s);
      assert writes[i].slot == s;
    }
  }

  lemma {:induction false} LatestWitness(base: Base, writes: seq<Write>, s: Slot) returns (i: nat)
    requires Latest(base, writes, s) != Original(base, s)
    ensures i < |writes| && writes[i].slot == s
  {
    if writes[|writes| - 1].slot == s {
      i := |writes| - 1;
    } else {
      i := LatestWitness(base, writes[..|writes| - 1], s);
    }
  }

  lemma ClearedAfterWrite(base: Base, writes: seq<Write>, w: Write)
    ensures var s := w.slot;
            Cleared(base, writes + [w]) ==
            if Original(base, s) != ZERO_WORD && w.value == ZERO_WORD then Cleared(base, writes) + {s}
            else Cleared(base, writes) - {s}
  {
    var after := writes + [w];
    assert after[..|after| - 1] == writes;
    forall s
      ensures s in Cleared(base, after) <==>
              if s == w.slot then Original(base, s) != ZERO_WORD && w.value == ZERO_WORD else s in Cleared(base, writes)
    {
      ClearedMember(base, after, s);
      ClearedMember(base, writes, s);
    }
  }

  /** The slot was populated and the value clears it. */
  predicate Clears(original: Word, value: Word) { original != ZERO_WORD && value == ZERO_WORD }

  lemma ClearedChange(base: Base, writes: seq<Write>, w: Write)
    ensures var original, current := Original(base, w.slot), Latest(base, writes, w.slot);
            && |Cleared(base, writes + [w])| == |Cleared(base, writes)|
               + (if Clears(original, w.value) then 1 else 0) - (if Clears(original, current) then 1 else 0)
            && (Clears(original, current) ==> |Cleared(base, writes)| >= 1)
  {
    ClearedAfterWrite(base, writes, w);
    ClearedMember(base, writes, w.slot);
    hide Cleared, Latest, Original;
    var before := Cleared(base, writes);
    if w.slot in before {
      assert before == (before - {w.slot}) + {w.slot};
      assert before + {w.slot} == before;
    } else {
      assert before - {w.slot} == before;
    }
  }

  lemma ResetsChange(base: Base, writes: seq<Write>, w: Write, fromZero: bool)
    ensures var original, current := Original(base, w.slot), Latest(base, writes, w.slot);
            Resets(base, writes + [w], fromZero) == Resets(base, writes, fromZero)
              + if current != w.value == original && (original == ZERO_WORD) == fromZero then 1 else 0
  {
    hide Latest, Original;
    var after := writes + [w];
    assert after[..|after| - 1] == writes;
  }

  lemma ClearingsChange(base: Base, writes: seq<Write>, w: Write)
    ensures var current := Latest(base, writes, w.slot);
            |Clearings(base, writes + [w])| == |Clearings(base, writes)|
              + if current != ZERO_WORD && w.value == ZERO_WORD then 1 else 0
  {
    hide Latest;
    var n, after, before := |writes|, writes + [w], Clearings(base, writes);
    assert after[..n] == writes;
    assert forall i: nat :: i < n ==> after[..i] == writes[..i];
    var clears := Latest(base, writes, w.slot) != ZERO_WORD && w.value == ZERO_WORD;
    assert Clearings(base, after) == if clears then before + {n} else before;
  }

  /** One write changes what is owed by exactly the refund the code books. */
  lemma OwedAfterWrite(base: Base, forks: Forks, writes: seq<Write>, w: Write)
    ensures Owed(base, forks, writes + [w]) - Owed(base, forks, writes)
            == RefundDelta(forks, Original(base, w.slot), Latest(base, writes, w.slot), w.value)
    ensures RefundDelta(forks, Original(base, w.slot), Latest(base, writes, w.slot), w.value) < 0
            ==> Owed(base, forks, writes) >= 15000
  {
    hide Cleared, Clearings, Resets, Latest, Original;
    ClearingsChange(base, writes, w);
    ClearedChange(base, writes, w);
    ResetsChange(base, writes, w, true);
    ResetsChange(base, writes, w, false);
    if forks.istanbul {
    } else {
    }
  }

  // ---------------------------------------------------------------------------
  // Exact accounting over runs
  // ---------------------------------------------------------------------------

  /** What led to an overlay: the storage writes and the gas booked with AddRefund. */
  datatype Past = Past(writes: seq<Write>, added: nat)

  /** A journal whose overlays carry their past. */
  datatype Traced = Traced(j: Journal, past: Past, savedPasts: seq<Past>)

  /** Everything but clean-up and replaced accounts; storage is written through SetStorage under
      the given fork. A sealing reward replaces an account that has suicided. */
  predicate Metered(base: Base, forks: Forks, ov: Overlay, c: Command)
  {
    c.Do? ==>
      match c.op
      case SetStorage(_, _, _, f) => f == forks
      case SetState(_, _, _) => false
      case CreateAccount(_) => false
      case AddSealingReward(a, _) => !HasSuicided(base, ov, a)
      case CleanDelete(_) => false
      case _ => true
  }

  predicate MeteredRun(base: Base, forks: Forks, j: Journal, cs: seq<Command>)
    decreases |cs|
  {
    cs == [] || (&& Enabled(j, cs[0]) && Metered(base, forks, j.current, cs[0])
                 && MeteredRun(base, forks, Step(base, j, cs[0]), cs[1..]))
  }

  function PastAfter(past: Past, op: Op): Past
  {
    match op
    case SetStorage(a, key, value, _) => past.(writes := past.writes + [Write(Slot(a, key), value)])
    case AddRefund(gas) => past.(added := past.added + gas)
    case _ => past
  }

  function TracedStep(base: Base, t: Traced, c: Command): Traced
    requires Enabled(t.j, c) && |t.savedPasts| == |t.j.saved|
  {
    var j := Step(base, t.j, c);
    match c
    case TakeSnapshot => Traced(j, t.past, t.savedPasts + [t.past])
    case RevertTo(id) => Traced(j, t.savedPasts[id], t.savedPasts)
    case Do(op) => Traced(j, PastAfter(t.past, op), t.savedPasts)
  }

  /** The overlay reads as its past says and its counter holds what is owed. */
  ghost predicate Accounted(base: Base, forks: Forks, ov: Overlay, past: Past)
  {
    && NoneDeleted(ov)
    && (forall a, k :: GetState(base, ov, a, k) == Latest(base, past.writes, Slot(a, k)))
    && (forall a, k :: GetCommittedState(base, ov, a, k) == Original(base, Slot(a, k)))
    && GetRefund(ov) == (Owed(base, forks, past.writes) + past.added) % TWO64
  }

  ghost predicate TracedInv(base: Base, forks: Forks, t: Traced)
  {
    && |t.savedPasts| == |t.j.saved|
    && Accounted(base, forks, t.j.current, t.past)
    && forall i :: 0 <= i < |t.j.saved| ==> Accounted(base, forks, t.j.saved[i], t.savedPasts[i])
  }

  lemma ModAdd(x: int, y: int, d: int)
    requires x == y % TWO64
    ensures (x + d) % TWO64 == (y + d) % TWO64
  {
    var q := y / TWO64;
    assert y + d == x + d + q * TWO64;
    ModShift(x + d, q);
  }

  lemma ModShift(x: int, q: int)
    ensures (x + q * TWO64) % TWO64 == x % TWO64
  {
    var r := x % TWO64;
    assert x == (x / TWO64) * TWO64 + r;
    assert x + q * TWO64 == (x / TWO64 + q) * TWO64 + r;
  }

  /** No object is marked deleted; only a clean-up marks one. */
  ghost predicate NoneDeleted(ov: Overlay)
  {
    forall a :: a in ov.objects ==> !ov.objects[a].deleted
  }

  /** The two overlays agree on every slot, committed and current. */
  ghost predicate SameStorage(base: Base, ov: Overlay, ov': Overlay)
  {
    && (forall a, k :: GetState(base, ov', a, k) == GetState(base, ov, a, k))
    && (forall a, k :: GetCommittedState(base, ov', a, k) == GetCommittedState(base, ov, a, k))
  }

  lemma InsertKeepsSlot(base: Base, ov: Overlay, a: Address, o: Object, x: Address, k: Word)
    requires NoneDeleted(ov) && !o.deleted
    requires o.account.root == Upserted(base, ov, a).account.root && o.storage == Upserted(base, ov, a).storage
    ensures GetState(base, Insert(ov, a, o), x, k) == GetState(base, ov, x, k)
    ensures GetCommittedState(base, Insert(ov, a, o), x, k) == GetCommittedState(base, ov, x, k)
  {
  }

  lemma InsertKeepsStorage(base: Base, ov: Overlay, a: Address, o: Object)
    requires NoneDeleted(ov) && !o.deleted
    requires o.account.root == Upserted(base, ov, a).account.root && o.storage == Upserted(base, ov, a).storage
    ensures NoneDeleted(Insert(ov, a, o)) && SameStorage(base, ov, Insert(ov, a, o))
  {
    forall x, k
      ensures GetState(base, Insert(ov, a, o), x, k) == GetState(base, ov, x, k)
      ensures GetCommittedState(base, Insert(ov, a, o), x, k) == GetCommittedState(base, ov, x, k)
    {
      InsertKeepsSlot(base, ov, a, o, x, k);
    }
  }

  /** An operation that leaves root and slots alone leaves all storage reads alone. */
  lemma QuietOpKeepsStorage(base: Base, ov: Overlay, op: Op)
    requires NoneDeleted(ov)
    requires Metered(base, Forks(true, true, true), ov, Do(op)) && !op.SetStorage? && !op.AddRefund?
    ensures var ov' := Apply(base, ov, op);
            GetRefund(ov') == GetRefund(ov) && NoneDeleted(ov') && SameStorage(base, ov, ov')
  {
    var ov' := Apply(base, ov, op);
    if !op.AddLog? && !op.TakeLogs? && ov' != ov {
      InsertKeepsStorage(base, ov, op.a, ov'.objects[op.a]);
    }
  }

  lemma SlotAfterInsert(base: Base, ov: Overlay, a: Address, key: Word, value: Word, x: Address, k: Word)
    requires NoneDeleted(ov)
    ensures var ov' := Insert(ov, a, WithSlot(Upserted(base, ov, a), key, value));
            && GetState(base, ov', x, k) == (if x == a && k == key then value else GetState(base, ov, x, k))
            && GetCommittedState(base, ov', x, k) == GetCommittedState(base, ov, x, k)
  {
  }

  lemma SetStorageReads(base: Base, ov: Overlay, a: Address, key: Word, value: Word, forks: Forks)
    requires NoneDeleted(ov)
    ensures var ov' := ApplySetStorage(base, ov, a, key, value, forks);
            && NoneDeleted(ov')
            && (forall x, k ::
                  GetState(base, ov', x, k) == if x == a && k == key then value else GetState(base, ov, x, k))
            && (forall x, k :: GetCommittedState(base, ov', x, k) == GetCommittedState(base, ov, x, k))
  {
    var ov' := ApplySetStorage(base, ov, a, key, value, forks);
    var inserted := Insert(ov, a, WithSlot(Upserted(base, ov, a), key, value));
    forall x, k
      ensures GetState(base, ov', x, k) == if x == a && k == key then value else GetState(base, ov, x, k)
      ensures GetCommittedState(base, ov', x, k) == GetCommittedState(base, ov, x, k)
    {
      SlotAfterInsert(base, ov, a, key, value, x, k);
      if ov' != ov {
        assert Lookup(base, ov', x) == Lookup(base, inserted, x);
      }
    }
  }

  /** SetStorage books exactly the refund delta, in 64-bit arithmetic. */
  lemma SetStorageRefund(base: Base, ov: Overlay, a: Address, key: Word, value: Word, forks: Forks)
    ensures var original, current := GetCommittedState(base, ov, a, key), GetState(base, ov, a, key);
            GetRefund(ApplySetStorage(base, ov, a, key, value, forks))
            == (GetRefund(ov) + RefundDelta(forks, original, current, value)) % TWO64
  {
  }

  lemma LatestAfterWrite(base: Base, writes: seq<Write>, w: Write, s: Slot)
    ensures Latest(base, writes + [w], s) == if s == w.slot then w.value else Latest(base, writes, s)
  {
    assert (writes + [w])[..|writes + [w]| - 1] == writes;
  }

  lemma SetStorageAccounted(base: Base, forks: Forks, ov: Overlay, past: Past, a: Address, key: Word, value: Word)
    requires Accounted(base, forks, ov, past)
    ensures Accounted(base, forks, ApplySetStorage(base, ov, a, key, value, forks),
                      past.(writes := past.writes + [Write(Slot(a, key), value)]))
  {
    hide ApplySetStorage, Owed, RefundDelta, Latest, GetState, GetCommittedState;
    var writes, w := past.writes, Write(Slot(a, key), value);
    var ov', after := ApplySetStorage(base, ov, a, key, value, forks), writes + [w];
    SetStorageReads(base, ov, a, key, value, forks);
    forall x, k
      ensures GetState(base, ov', x, k) == Latest(base, after, Slot(x, k))
    {
      LatestAfterWrite(base, writes, w, Slot(x, k));
    }
    assert GetRefund(ov') == (Owed(base, forks, after) + past.added) % TWO64 by {
      SetStorageRefund(base, ov, a, key, value, forks);
      OwedAfterWrite(base, forks, writes, w);
      ModAdd(GetRefund(ov), Owed(base, forks, writes) + past.added,
             Owed(base, forks, after) - Owed(base, forks, writes));
    }
  }

  lemma AddRefundAccounted(base: Base, forks: Forks, ov: Overlay, past: Past, gas: U64)
    requires Accounted(base, forks, ov, past)
    ensures Accounted(base, forks, WithRefund(ov, gas), past.(added := past.added + gas))
  {
    hide Owed, Latest;
    ModAdd(GetRefund(ov), Owed(base, forks, past.writes) + past.added, gas);
    assert forall a :: Lookup(base, WithRefund(ov, gas), a) == Lookup(base, ov, a);
  }

  lemma OpAccounted(base: Base, forks: Forks, ov: Overlay, past: Past, op: Op)
    requires Accounted(base, forks, ov, past) && Metered(base, forks, ov, Do(op))
    ensures Accounted(base, forks, Apply(base, ov, op), PastAfter(past, op))
  {
    if op.SetStorage? {
      SetStorageAccounted(base, forks, ov, past, op.a, op.key, op.value);
    } else if op.AddRefund? {
      AddRefundAccounted(base, forks, ov, past, op.gas);
    } else {
      QuietOpKeepsStorage(base, ov, op);
    }
    hide Accounted, ApplySetStorage, WithRefund;
  }

  lemma TracedStepKeepsInv(base: Base, forks: Forks, t: Traced, c: Command)
    requires TracedInv(base, forks, t)
    requires Enabled(t.j, c) && Metered(base, forks, t.j.current, c)
    ensures TracedInv(base, forks, TracedStep(base, t, c))
  {
    hide Accounted, Apply, PastAfter, Metered;
    if c.Do? {
      OpAccounted(base, forks, t.j.current, t.past, c.op);
    }
  }

  function TracedExec(base: Base, t: Traced, cs: seq<Command>): Traced
    requires CanRun(base, t.j, cs) && |t.savedPasts| == |t.j.saved|
    decreases |cs|
  {
    if cs == [] then t else TracedExec(base, TracedStep(base, t, cs[0]), cs[1..])
  }

  lemma {:induction false} RefundIsOwedFrom(base: Base, forks: Forks, t: Traced, cs: seq<Command>)
    requires TracedInv(base, forks, t)
    requires CanRun(base, t.j, cs) && MeteredRun(base, forks, t.j, cs)
    ensures TracedInv(base, forks, TracedExec(base, t, cs))
    ensures TracedExec(base, t, cs).j == Exec(base, t.j, cs)
    decreases |cs|
  {
    if cs != [] {
      TracedStepKeepsInv(base, forks, t, cs[0]);
      RefundIsOwedFrom(base, forks, TracedStep(base, t, cs[0]), cs[1..]);
    }
  }

  /** From a new transaction, any metered run with any snapshots and reverts leaves the
      counter at what the surviving writes are owed and the surviving bookings add, modulo the
      64-bit width. */
  lemma RefundIsOwed(base: Base, forks: Forks, cs: seq<Command>)
    requires CanRun(base, Journal(EMPTY_OVERLAY, [], []), cs)
    requires MeteredRun(base, forks, Journal(EMPTY_OVERLAY, [], []), cs)
    ensures var start := Journal(EMPTY_OVERLAY, [], []);
            var t := TracedExec(base, Traced(start, Past([], 0), []), cs);
            && t.j == Exec(base, start, cs)
            && GetRefund(t.j.current) == (Owed(base, forks, t.past.writes) + t.past.added) % TWO64
            && forall a, k :: GetState(base, t.j.current, a, k) == Latest(base, t.past.writes, Slot(a, k))
  {
    var t := Traced(Journal(EMPTY_OVERLAY, [], []), Past([], 0), []);
    assert Cleared(base, []) == {} && Clearings(base, []) == {};
    assert forall a, k :: GetCommittedState(base, EMPTY_OVERLAY, a, k) == Original(base, Slot(a, k));
    RefundIsOwedFrom(base, forks, t, cs);
  }

  /** Without net metering that is 15000 for every surviving write that cleared a slot. */
  lemma LegacyRefundIsOwed(base: Base, forks: Forks, cs: seq<Command>)
    requires !forks.istanbul && (forks.petersburg || !forks.constantinople)
    requires CanRun(base, Journal(EMPTY_OVERLAY, [], []), cs)
    requires MeteredRun(base, forks, Journal(EMPTY_OVERLAY, [], []), cs)
    ensures var start := Journal(EMPTY_OVERLAY, [], []);
            var t := TracedExec(base, Traced(start, Past([], 0), []), cs);
            && t.j == Exec(base, start, cs)
            && GetRefund(t.j.current) == (15000 * |Clearings(base, t.past.writes)| + t.past.added) % TWO64
  {
    RefundIsOwed(base, forks, cs);
  }

  // ---------------------------------------------------------------------------
  // The counter never underflows, whatever else a transaction does
  // ---------------------------------------------------------------------------

  /** The overlay's slots that were populated and now read zero. */
  ghost function ClearedIn(base: Base, ov: Overlay): set<Slot>
  {
    set a, k | a in ov.objects && ov.objects[a].storage.Some? && k in ov.objects[a].storage.value
               && GetCommittedState(base, ov, a, k) != ZERO_WORD
               && GetState(base, ov, a, k) == ZERO_WORD :: Slot(a, k)
  }

  /** What an operation adds to the counter, as an integer. */
  function Booked(base: Base, ov: Overlay, op: Op): int
  {
    match op
    case SetStorage(a, key, value, f) =>
      RefundDelta(f, GetCommittedState(base, ov, a, key), GetState(base, ov, a, key), value)
    case AddRefund(gas) => gas
    case _ => 0
  }

  /** The operation makes SetStorage call SubRefund. */
  predicate Subtracts(base: Base, ov: Overlay, op: Op)
  {
    && op.SetStorage? && !Legacy(op.forks)
    && var original, current := GetCommittedState(base, ov, op.a, op.key), GetState(base, ov, op.a, op.key);
       current != op.value && original != ZERO_WORD && current == ZERO_WORD
  }

  /** Everything a transaction does before the clean-up, with storage written through
      SetStorage under any fork. */
  predicate BeforeCleanup(c: Command) { c.Do? ==> !c.op.SetState? && !c.op.CleanDelete? }

  /** The unbounded counter beside the journal. */
  datatype Counted = Counted(j: Journal, total: int, savedTotals: seq<int>)

  function CountedStep(base: Base, t: Counted, c: Command): Counted
    requires Enabled(t.j, c) && |t.savedTotals| == |t.j.saved|
  {
    var j := Step(base, t.j, c);
    match c
    case TakeSnapshot => Counted(j, t.total, t.savedTotals + [t.total])
    case RevertTo(id) => Counted(j, t.savedTotals[id], t.savedTotals)
    case Do(op) => Counted(j, t.total + Booked(base, t.j.current, op), t.savedTotals)
  }

  function CountedExec(base: Base, t: Counted, cs: seq<Command>): Counted
    requires CanRun(base, t.j, cs) && |t.savedTotals| == |t.j.saved|
    decreases |cs|
  {
    if cs == [] then t else CountedExec(base, CountedStep(base, t, cs[0]), cs[1..])
  }

  /** The counter covers 15000 for each cleared slot. */
  ghost predicate Covered(base: Base, ov: Overlay, total: int)
  {
    && NoneDeleted(ov)
    && GetRefund(ov) == total % TWO64
    && total >= 15000 * |ClearedIn(base, ov)|
  }

  ghost predicate CountedInv(base: Base, t: Counted)
  {
    && |t.savedTotals| == |t.j.saved|
    && Covered(base, t.j.current, t.total)
    && forall i :: 0 <= i < |t.j.saved| ==> Covered(base, t.j.saved[i], t.savedTotals[i])
  }

  lemma ClearedInMember(base: Base, ov: Overlay, s: Slot)
    requires NoneDeleted(ov)
    ensures s in ClearedIn(base, ov)
            <==> GetCommittedState(base, ov, s.a, s.key) != ZERO_WORD && GetState(base, ov, s.a, s.key) == ZERO_WORD
  {
  }

  lemma FewerCleared(base: Base, ov: Overlay, ov': Overlay)
    requires NoneDeleted(ov) && NoneDeleted(ov')
    requires forall a, k :: GetCommittedState(base, ov', a, k) != ZERO_WORD ==>
                              && GetCommittedState(base, ov', a, k) == GetCommittedState(base, ov, a, k)
                              && GetState(base, ov', a, k) == GetState(base, ov, a, k)
    ensures |ClearedIn(base, ov')| <= |ClearedIn(base, ov)|
  {
    forall s | s in ClearedIn(base, ov')
      ensures s in ClearedIn(base, ov)
    {
      ClearedInMember(base, ov', s);
      ClearedInMember(base, ov, s);
    }
    var rest := ClearedIn(base, ov) - ClearedIn(base, ov');
    assert ClearedIn(base, ov) == ClearedIn(base, ov') + rest;
  }

  lemma InsertFreshFewerCleared(base: Base, ov: Overlay, a: Address, balance: int)
    requires NoneDeleted(ov)
    ensures NoneDeleted(Insert(ov, a, WithBalance(FreshObject(), balance)))
    ensures |ClearedIn(base, Insert(ov, a, WithBalance(FreshObject(), balance)))| <= |ClearedIn(base, ov)|
  {
    FewerCleared(base, ov, Insert(ov, a, WithBalance(FreshObject(), balance)));
  }

  lemma ClearedInAfterSetStorage(base: Base, ov: Overlay, a: Address, key: Word, value: Word, forks: Forks)
    requires NoneDeleted(ov)
    ensures var ov', s := ApplySetStorage(base, ov, a, key, value, forks), Slot(a, key);
            ClearedIn(base, ov') ==
            if GetCommittedState(base, ov, a, key) != ZERO_WORD && value == ZERO_WORD then ClearedIn(base, ov) + {s}
            else ClearedIn(base, ov) - {s}
  {
    var ov' := ApplySetStorage(base, ov, a, key, value, forks);
    SetStorageReads(base, ov, a, key, value, forks);
    forall s
      ensures s in ClearedIn(base, ov') <==>
              if s == Slot(a, key) then GetCommittedState(base, ov, a, key) != ZERO_WORD && value == ZERO_WORD
              else s in ClearedIn(base, ov)
    {
      ClearedInMember(base, ov', s);
      ClearedInMember(base, ov, s);
    }
  }

  /** The delta pays for every slot that becomes cleared. */
  lemma DeltaPaysForCleared(forks: Forks, original: Word, current: Word, value: Word, before: set<Slot>, s: Slot)
    requires s in before <==> original != ZERO_WORD && current == ZERO_WORD
    ensures var after := if original != ZERO_WORD && value == ZERO_WORD then before + {s} else before - {s};
            15000 * |after| <= 15000 * |before| + RefundDelta(forks, original, current, value)
  {
    assert s in before ==> |before - {s}| == |before| - 1 && before + {s} == before;
    assert s !in before ==> before - {s} == before;
  }

  lemma SetStoragePaysForCleared(base: Base, ov: Overlay, a: Address, key: Word, value: Word, forks: Forks)
    requires NoneDeleted(ov)
    ensures 15000 * |ClearedIn(base, ApplySetStorage(base, ov, a, key, value, forks))|
            <= 15000 * |ClearedIn(base, ov)| + Booked(base, ov, SetStorage(a, key, value, forks))
  {
    hide ApplySetStorage, RefundDelta, GetState, GetCommittedState;
    ClearedInMember(base, ov, Slot(a, key));
    ClearedInAfterSetStorage(base, ov, a, key, value, forks);
    DeltaPaysForCleared(forks, GetCommittedState(base, ov, a, key), GetState(base, ov, a, key), value,
                        ClearedIn(base, ov), Slot(a, key));
  }

  lemma SetStorageCovered(base: Base, ov: Overlay, total: int, a: Address, key: Word, value: Word, forks: Forks)
    requires Covered(base, ov, total)
    ensures Covered(base, ApplySetStorage(base, ov, a, key, value, forks),
                    total + Booked(base, ov, SetStorage(a, key, value, forks)))
  {
    hide ApplySetStorage, RefundDelta, ClearedIn;
    SetStorageReads(base, ov, a, key, value, forks);
    SetStorageRefund(base, ov, a, key, value, forks);
    ModAdd(GetRefund(ov), total, Booked(base, ov, SetStorage(a, key, value, forks)));
    SetStoragePaysForCleared(base, ov, a, key, value, forks);
  }

  lemma OpCovered(base: Base, ov: Overlay, total: int, op: Op)
    requires Covered(base, ov, total)
    requires BeforeCleanup(Do(op))
    ensures Covered(base, Apply(base, ov, op), total + Booked(base, ov, op))
    ensures Subtracts(base, ov, op) ==> total >= 15000
  {
    hide ApplySetStorage, ClearedIn, RefundDelta;
    var ov' := Apply(base, ov, op);
    match op
    case SetStorage(a, key, value, forks) =>
      ClearedInMember(base, ov, Slot(a, key));
      SetStorageCovered(base, ov, total, a, key, value, forks);
    case CreateAccount(a) =>
      InsertFreshFewerCleared(base, ov, a, GetBalance(base, ov, a));
    case AddSealingReward(a, amount) =>
      if Upserted(base, ov, a).suicide {
        InsertFreshFewerCleared(base, ov, a, Abs(amount));
      } else {
        InsertKeepsStorage(base, ov, a, ov'.objects[a]);
        FewerCleared(base, ov, ov');
      }
    case AddRefund(gas) =>
      ModAdd(GetRefund(ov), total, gas);
      FewerCleared(base, ov, ov');
    case _ =>
      QuietOpKeepsStorage(base, ov, op);
      FewerCleared(base, ov, ov');
  }

  /** The most a command can add to the counter. */
  function Allowance(c: Command): nat
  {
    if c.Do? && c.op.SetStorage? then 19800 else if c.Do? && c.op.AddRefund? then c.op.gas else 0
  }

  function TotalAllowance(cs: seq<Command>): nat
  {
    if cs == [] then 0 else Allowance(cs[0]) + TotalAllowance(cs[1..])
  }

  lemma BookedWithinAllowance(base: Base, ov: Overlay, op: Op)
    ensures Booked(base, ov, op) <= Allowance(Do(op))
  {
  }

  /** The counter and the saved counters are within the bound. */
  ghost predicate Within(t: Counted, bound: int)
  {
    t.total <= bound && forall i :: 0 <= i < |t.savedTotals| ==> t.savedTotals[i] <= bound
  }

  lemma {:induction false} RefundNeverUnderflowsFrom(base: Base, t: Counted, cs: seq<Command>, bound: int)
    requires CountedInv(base, t) && Within(t, bound)
    requires CanRun(base, t.j, cs) && forall i :: 0 <= i < |cs| ==> BeforeCleanup(cs[i])
    ensures CountedInv(base, CountedExec(base, t, cs)) && Within(CountedExec(base, t, cs), bound + TotalAllowance(cs))
    ensures CountedExec(base, t, cs).j == Exec(base, t.j, cs)
    decreases |cs|
  {
    hide Covered, Allowance, Apply, Booked, BeforeCleanup;
    if cs != [] {
      CountedStepKeepsInv(base, t, cs[0], bound);
      RefundNeverUnderflowsFrom(base, CountedStep(base, t, cs[0]), cs[1..], bound + Allowance(cs[0]));
    }
  }

  lemma CountedStepKeepsInv(base: Base, t: Counted, c: Command, bound: int)
    requires CountedInv(base, t) && Within(t, bound) && Enabled(t.j, c) && BeforeCleanup(c)
    ensures CountedInv(base, CountedStep(base, t, c)) && Within(CountedStep(base, t, c), bound + Allowance(c))
    ensures CountedStep(base, t, c).j == Step(base, t.j, c)
  {
    hide Covered, Booked, Apply;
    if c.Do? {
      OpCovered(base, t.j.current, t.total, c.op);
      BookedWithinAllowance(base, t.j.current, c.op);
    }
  }

  lemma NothingCounted(base: Base)
    ensures CountedInv(base, Counted(Journal(EMPTY_OVERLAY, [], []), 0, []))
  {
    assert ClearedIn(base, EMPTY_OVERLAY) == {};
  }

  /** In every run before the clean-up, account creation and resets included, the integer
      counter covers every cleared slot and is at most what the commands allow, and the stored
      counter is that integer modulo 2^64. So a run whose commands allow less than 2^64 has the
      integer itself stored, and whenever SubRefund is next it finds 15000 to take. */
  lemma RefundNeverUnderflows(base: Base, cs: seq<Command>, next: Op)
    requires CanRun(base, Journal(EMPTY_OVERLAY, [], []), cs)
    requires forall i :: 0 <= i < |cs| ==> BeforeCleanup(cs[i])
    requires BeforeCleanup(Do(next))
    ensures var start := Journal(EMPTY_OVERLAY, [], []);
            var t := CountedExec(base, Counted(start, 0, []), cs);
            var ov := Exec(base, start, cs).current;
            && GetRefund(ov) == t.total % TWO64
            && 15000 * |ClearedIn(base, ov)| <= t.total <= TotalAllowance(cs)
            && (TotalAllowance(cs) < TWO64 ==> GetRefund(ov) == t.total)
            && (Subtracts(base, ov, next) ==> t.total >= 15000)
            && (Subtracts(base, ov, next) && t.total < TWO64 ==> GetRefund(ov) >= 15000)
            && (Subtracts(base, ov, next) && TotalAllowance(cs) < TWO64 ==> GetRefund(ov) >= 15000)
  {
    hide ClearedIn, CountedExec, Exec, CanRun, Subtracts, Apply, Booked;
    var t := Counted(Journal(EMPTY_OVERLAY, [], []), 0, []);
    NothingCounted(base);
    RefundNeverUnderflowsFrom(base, t, cs, 0);
    var end := CountedExec(base, t, cs);
    OpCovered(base, end.j.current, end.total, next);
  }

  /** Past the bound the counter can wrap: a slot is cleared, AddRefund books the rest of 2^64,
      and a write to the slot subtracts from a stored zero. */
  lemma RefundCanWrap(base: Base, forks: Forks, s: Slot, value: Word)
    requires !Legacy(forks) && Original(base, s) != ZERO_WORD && value != ZERO_WORD && value != Original(base, s)
    ensures var start := Journal(EMPTY_OVERLAY, [], []);
            var clear, book := SetStorage(s.a, s.key, ZERO_WORD, forks), AddRefund(TWO64 - 15000);
            var write := SetStorage(s.a, s.key, value, forks);
            && CanRun(base, start, [Do(clear), Do(book)])
            && var ov := Exec(base, start, [Do(clear), Do(book)]).current;
            && Subtracts(base, ov, write) && GetRefund(ov) == 0
            && GetRefund(Apply(base, ov, write)) == TWO64 - 15000
  {
    var clear, book := SetStorage(s.a, s.key, ZERO_WORD, forks), AddRefund(TWO64 - 15000);
    TwoSteps(base, clear, book);
    hide Exec, CanRun, Apply, Subtracts;
    WrapsAfterTwo(base, forks, s, value);
  }

  lemma TwoSteps(base: Base, op: Op, op': Op)
    ensures var start := Journal(EMPTY_OVERLAY, [], []);
            && CanRun(base, start, [Do(op), Do(op')])
            && Exec(base, start, [Do(op), Do(op')]).current == Apply(base, Apply(base, EMPTY_OVERLAY, op), op')
  {
    hide Apply;
    var start, cs := Journal(EMPTY_OVERLAY, [], []), [Do(op), Do(op')];
    assert cs[1..] == [Do(op')] && cs[1..][1..] == [];
    var j := Step(base, Step(base, start, cs[0]), cs[1]);
    assert CanRun(base, j, []) && Exec(base, j, []) == j;
    assert CanRun(base, Step(base, start, cs[0]), [Do(op')]);
  }

  lemma WrapsAfterTwo(base: Base, forks: Forks, s: Slot, value: Word)
    requires !Legacy(forks) && Original(base, s) != ZERO_WORD && value != ZERO_WORD && value != Original(base, s)
    ensures var clear, book := SetStorage(s.a, s.key, ZERO_WORD, forks), AddRefund(TWO64 - 15000);
            var write := SetStorage(s.a, s.key, value, forks);
            var ov := Apply(base, Apply(base, EMPTY_OVERLAY, clear), book);
            && Subtracts(base, ov, write) && GetRefund(ov) == 0
            && GetRefund(Apply(base, ov, write)) == TWO64 - 15000
  {
    var ov1 := ApplySetStorage(base, EMPTY_OVERLAY, s.a, s.key, ZERO_WORD, forks);
    var ov2 := WithRefund(ov1, TWO64 - 15000);
    SetStorageReads(base, EMPTY_OVERLAY, s.a, s.key, ZERO_WORD, forks);
    SetStorageRefund(base, EMPTY_OVERLAY, s.a, s.key, ZERO_WORD, forks);
    assert GetCommittedState(base, EMPTY_OVERLAY, s.a, s.key) == Original(base, s);
    assert Lookup(base, ov2, s.a) == Lookup(base, ov1, s.a);
    SetStorageRefund(base, ov2, s.a, s.key, value, forks);
    assert GetState(base, ov2, s.a, s.key) == GetState(base, ov1, s.a, s.key);
    assert GetCommittedState(base, ov2, s.a, s.key) == GetCommittedState(base, ov1, s.a, s.key);
    hide ApplySetStorage, GetState, GetCommittedState, Lookup;
    assert GetRefund(ov1) == 15000;
  }
}
