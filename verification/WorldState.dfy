/** The journaled world state on values: the base snapshot, the overlay of changed accounts,
    the operations on it, and snapshots and reverts. `StateTxn` refines this on the heap. */
module WorldState {
  import opened Wrappers
  import opened Words

  /** A 32-byte storage key or value; zero is the zero hash. */
  type Word = nat
  type Byte = bv8

  const ZERO_WORD: Word := 0

  /** Hashes are injective: a digest is identified with what was hashed. */
  datatype Digest = ZeroDigest | Keccak(code: seq<Byte>)
  datatype Root = Root(contents: map<Word, Word>)

  const EMPTY_CODE_HASH := Keccak([])
  const EMPTY_ROOT := Root(map[])

  datatype Account = Account(nonce: U64, balance: int, root: Root, codeHash: Digest)

  /** `storage` is the account's own overlay of storage slots, absent until the first write;
      a slot that maps to None was cleared. */
  datatype Object = Object(
    account: Account, code: seq<Byte>, suicide: bool, deleted: bool, dirtyCode: bool,
    storage: Option<map<Word, Option<Word>>>)

  datatype Log = Log(address: Address, topics: seq<Word>, data: seq<Byte>)

  datatype Overlay = Overlay(objects: map<Address, Object>, logs: Option<seq<Log>>, refund: Option<U64>)

  /** The committed state: accounts, the storage tries that can be opened by root, and the
      stored codes by hash. */
  datatype Base = Base(accounts: map<Address, Account>, tries: set<Root>, codes: map<Digest, seq<Byte>>)

  datatype Forks = Forks(constantinople: bool, petersburg: bool, istanbul: bool)

  datatype StorageStatus = Unchanged | Modified | ModifiedAgain | Added | Deleted

  const EMPTY_OVERLAY := Overlay(map[], None, None)

  function Abs(x: int): nat { if x < 0 then -x else x }

  // ---------------------------------------------------------------------------
  // Reads
  // ---------------------------------------------------------------------------

  function GetStorage(base: Base, root: Root, key: Word): Word
  {
    if root != EMPTY_ROOT && root in base.tries && key in root.contents then root.contents[key] else ZERO_WORD
  }

  /** A copied account carries the magnitude of the balance. */
  function CopyAccount(a: Account): Account { a.(balance := Abs(a.balance)) }

  function CopyObject(o: Object): Object { o.(account := CopyAccount(o.account)) }

  function FreshObject(): Object
  {
    Object(Account(0, 0, EMPTY_ROOT, EMPTY_CODE_HASH), [], false, false, false, None)
  }

  /** The object an address reads as: a copy of the overlay's, else of the base account. */
  function Lookup(base: Base, ov: Overlay, a: Address): Option<Object>
  {
    if a in ov.objects then
      if ov.objects[a].deleted then None else Some(CopyObject(ov.objects[a]))
    else if a in base.accounts then
      Some(FreshObject().(account := CopyAccount(base.accounts[a])))
    else None
  }

  predicate Exist(base: Base, ov: Overlay, a: Address) { Lookup(base, ov, a).Some? }

  function GetBalance(base: Base, ov: Overlay, a: Address): int
  {
    match Lookup(base, ov, a) case None => 0 case Some(o) => o.account.balance
  }

  function GetNonce(base: Base, ov: Overlay, a: Address): U64
  {
    match Lookup(base, ov, a) case None => 0 case Some(o) => o.account.nonce
  }

  function GetCodeHash(base: Base, ov: Overlay, a: Address): Digest
  {
    match Lookup(base, ov, a) case None => ZeroDigest case Some(o) => o.account.codeHash
  }

  predicate HasSuicided(base: Base, ov: Overlay, a: Address)
  {
    match Lookup(base, ov, a) case None => false case Some(o) => o.suicide
  }

  /** The code set for the account in this transaction. */
  function GetSetCode(base: Base, ov: Overlay, a: Address): Option<seq<Byte>>
  {
    match Lookup(base, ov, a) case None => None case Some(o) => if o.dirtyCode then Some(o.code) else None
  }

  function StoredCode(base: Base, hash: Digest): seq<Byte> { if hash in base.codes then base.codes[hash] else [] }

  /** The code set in this transaction, else what is stored under the account's code hash. */
  function GetCode(base: Base, ov: Overlay, a: Address): seq<Byte>
  {
    match GetSetCode(base, ov, a)
    case Some(code) => code
    case None => StoredCode(base, GetCodeHash(base, ov, a))
  }

  /** What a read of the code returns over a cache of codes by address. */
  function CodeRead(base: Base, ov: Overlay, entries: map<Address, seq<Byte>>, a: Address): seq<Byte>
  {
    if Exist(base, ov, a) && GetSetCode(base, ov, a).None? && a in entries then entries[a]
    else if Exist(base, ov, a) then GetCode(base, ov, a)
    else []
  }

  function EntriesAfter(base: Base, ov: Overlay, entries: map<Address, seq<Byte>>, a: Address, dropped: set<Address>)
      : map<Address, seq<Byte>>
  {
    if Exist(base, ov, a) && GetSetCode(base, ov, a).None? && a !in entries
    then (entries - dropped)[a := GetCode(base, ov, a)] else entries
  }

  function SlotOf(base: Base, o: Object, key: Word): Word
  {
    if o.storage.Some? && key in o.storage.value then
      match o.storage.value[key] case None => ZERO_WORD case Some(w) => w
    else GetStorage(base, o.account.root, key)
  }

  function GetState(base: Base, ov: Overlay, a: Address, key: Word): Word
  {
    match Lookup(base, ov, a) case None => ZERO_WORD case Some(o) => SlotOf(base, o, key)
  }

  function GetCommittedState(base: Base, ov: Overlay, a: Address, key: Word): Word
  {
    match Lookup(base, ov, a) case None => ZERO_WORD case Some(o) => GetStorage(base, o.account.root, key)
  }

  function GetRefund(ov: Overlay): U64 { if ov.refund.Some? then ov.refund.value else 0 }

  predicate IsEmpty(o: Object)
  {
    o.account.nonce == 0 && o.account.balance == 0 && o.account.codeHash == EMPTY_CODE_HASH
  }

  // ---------------------------------------------------------------------------
  // Operations
  // ---------------------------------------------------------------------------

  datatype Op =
    | AddBalance(a: Address, amount: int)
    | SubBalance(a: Address, amount: int)
    | SetBalance(a: Address, amount: int)
    | AddSealingReward(a: Address, amount: int)
    | SetNonce(a: Address, nonce: U64)
    | IncrNonce(a: Address)
    | SetCode(a: Address, code: seq<Byte>)
    | SetState(a: Address, key: Word, value: Word)
    | SetStorage(a: Address, key: Word, value: Word, forks: Forks)
    | Suicide(a: Address)
    | CreateAccount(a: Address)
    | TouchAccount(a: Address)
    | AddLog(log: Log)
    | TakeLogs
    | AddRefund(gas: U64)
    | CleanDelete(deleteEmpty: bool)

  function Insert(ov: Overlay, a: Address, o: Object): Overlay
  {
    ov.(objects := ov.objects[a := o])
  }

  /** The object an update starts from. */
  function Upserted(base: Base, ov: Overlay, a: Address): Object
  {
    match Lookup(base, ov, a) case None => FreshObject() case Some(o) => o
  }

  function WithBalance(o: Object, b: int): Object { o.(account := o.account.(balance := b)) }
  function WithNonce(o: Object, n: U64): Object { o.(account := o.account.(nonce := n)) }

  function WithSlot(o: Object, key: Word, value: Word): Object
  {
    var slots := if o.storage.Some? then o.storage.value else map[];
    o.(storage := Some(slots[key := if value == ZERO_WORD then None else Some(value)]))
  }

  function WithRefund(ov: Overlay, delta: int): Overlay
  {
    ov.(refund := Some((GetRefund(ov) + delta) % TWO64))
  }

  function WithLog(ov: Overlay, log: Log): Overlay
  {
    ov.(logs := Some((if ov.logs.Some? then ov.logs.value else []) + [log]))
  }

  predicate Legacy(f: Forks) { !f.istanbul && (f.petersburg || !f.constantinople) }

  function ResetBonus(f: Forks, original: Word): nat
  {
    if original == ZERO_WORD then (if f.istanbul then 19200 else 19800)
    else (if f.istanbul then 4200 else 4800)
  }

  /** How writing value over current changes the refund counter, as an integer. */
  function RefundDelta(f: Forks, original: Word, current: Word, value: Word): int
  {
    if current == value then 0
    else if Legacy(f) then
      (if current != ZERO_WORD && value == ZERO_WORD then 15000 else 0)
    else if original == current then
      (if original != ZERO_WORD && value == ZERO_WORD then 15000 else 0)
    else
      (if original != ZERO_WORD && current == ZERO_WORD then -15000
       else if original != ZERO_WORD && value == ZERO_WORD then 15000
       else 0)
      + (if original == value then ResetBonus(f, original) else 0)
  }

  function Suicided(o: Object): Object { WithBalance(o, 0).(suicide := true) }

  /** CleanDeleteObjects gives up this object. */
  predicate Doomed(o: Object, deleteEmpty: bool) { o.suicide || (IsEmpty(o) && deleteEmpty) }

  function CleanObjects(objects: map<Address, Object>, deleteEmpty: bool): map<Address, Object>
  {
    map a | a in objects ::
      if Doomed(objects[a], deleteEmpty) then CopyObject(objects[a]).(deleted := true) else objects[a]
  }

  function ApplySetStorage(base: Base, ov: Overlay, a: Address, key: Word, value: Word, forks: Forks): Overlay
  {
    var current := GetState(base, ov, a, key);
    if current == value then ov
    else
      var delta := RefundDelta(forks, GetCommittedState(base, ov, a, key), current, value);
      var ov' := Insert(ov, a, WithSlot(Upserted(base, ov, a), key, value));
      if delta == 0 then ov' else WithRefund(ov', delta)
  }

  function Apply(base: Base, ov: Overlay, op: Op): Overlay
  {
    match op
    case AddBalance(a, amount) =>
      var o := Upserted(base, ov, a);
      Insert(ov, a, WithBalance(o, o.account.balance + amount))
    case SubBalance(a, amount) =>
      if amount == 0 || GetBalance(base, ov, a) < amount then ov
      else
        var o := Upserted(base, ov, a);
        Insert(ov, a, WithBalance(o, o.account.balance - amount))
    case SetBalance(a, amount) =>
      Insert(ov, a, WithBalance(Upserted(base, ov, a), Abs(amount)))
    case AddSealingReward(a, amount) =>
      var o := Upserted(base, ov, a);
      Insert(ov, a, if o.suicide then WithBalance(FreshObject(), Abs(amount))
                    else WithBalance(o, o.account.balance + amount))
    case SetNonce(a, nonce) =>
      Insert(ov, a, WithNonce(Upserted(base, ov, a), nonce))
    case IncrNonce(a) =>
      var o := Upserted(base, ov, a);
      Insert(ov, a, WithNonce(o, (o.account.nonce + 1) % TWO64))
    case SetCode(a, code) =>
      var o := Upserted(base, ov, a);
      Insert(ov, a, o.(account := o.account.(codeHash := Keccak(code)), dirtyCode := true, code := code))
    case SetState(a, key, value) =>
      Insert(ov, a, WithSlot(Upserted(base, ov, a), key, value))
    case SetStorage(a, key, value, forks) =>
      ApplySetStorage(base, ov, a, key, value, forks)
    case Suicide(a) =>
      (match Lookup(base, ov, a) case None => ov case Some(o) => Insert(ov, a, Suicided(o)))
    case CreateAccount(a) =>
      Insert(ov, a, WithBalance(FreshObject(), GetBalance(base, ov, a)))
    case TouchAccount(a) =>
      Insert(ov, a, Upserted(base, ov, a))
    case AddLog(log) =>
      WithLog(ov, log)
    case TakeLogs =>
      ov.(logs := None)
    case AddRefund(gas) =>
      WithRefund(ov, gas)
    case CleanDelete(deleteEmpty) =>
      ov.(objects := CleanObjects(ov.objects, deleteEmpty), refund := None)
  }

  // ---------------------------------------------------------------------------
  // Snapshots and reverts
  // ---------------------------------------------------------------------------

  /** `live` are the snapshot ids, oldest first, that nested use may still revert to. */
  datatype Journal = Journal(current: Overlay, saved: seq<Overlay>, live: seq<nat>)

  datatype Command = Do(op: Op) | TakeSnapshot | RevertTo(id: nat)

  function Upto(live: seq<nat>, id: nat): seq<nat>
  {
    if live == [] || live[|live| - 1] == id then live else Upto(live[..|live| - 1], id)
  }

  predicate Enabled(j: Journal, c: Command) { c.RevertTo? ==> c.id < |j.saved| }

  function Step(base: Base, j: Journal, c: Command): Journal
    requires Enabled(j, c)
  {
    match c
    case Do(op) => j.(current := Apply(base, j.current, op))
    case TakeSnapshot => j.(saved := j.saved + [j.current], live := j.live + [|j.saved|])
    case RevertTo(id) => j.(current := j.saved[id], live := Upto(j.live, id))
  }

  predicate CanRun(base: Base, j: Journal, cs: seq<Command>)
    decreases |cs|
  {
    cs == [] || (Enabled(j, cs[0]) && CanRun(base, Step(base, j, cs[0]), cs[1..]))
  }

  function Exec(base: Base, j: Journal, cs: seq<Command>): Journal
    requires CanRun(base, j, cs)
    decreases |cs|
  {
    if cs == [] then j else Exec(base, Step(base, j, cs[0]), cs[1..])
  }

  /** The commands revert only to snapshots that are still live. */
  predicate NestedRun(base: Base, j: Journal, cs: seq<Command>)
    decreases |cs|
  {
    cs == [] || (Enabled(j, cs[0]) && (cs[0].RevertTo? ==> cs[0].id in j.live)
                 && NestedRun(base, Step(base, j, cs[0]), cs[1..]))
  }

  lemma {:induction false} NestedRunCanRun(base: Base, j: Journal, cs: seq<Command>)
    requires NestedRun(base, j, cs)
    ensures CanRun(base, j, cs)
    decreases |cs|
  {
    if cs != [] {
      NestedRunCanRun(base, Step(base, j, cs[0]), cs[1..]);
    }
  }

  /** Whatever happens after a snapshot, reverting to it restores the overlay. */
  lemma {:induction false} RevertRestores(base: Base, j: Journal, cs: seq<Command>, id: nat)
    requires CanRun(base, j, cs) && id < |j.saved|
    ensures id < |Exec(base, j, cs).saved|
    ensures Step(base, Exec(base, j, cs), RevertTo(id)).current == j.saved[id]
    decreases |cs|
  {
    if cs != [] {
      RevertRestores(base, Step(base, j, cs[0]), cs[1..], id);
    }
  }

  // ---------------------------------------------------------------------------
  // What does not depend on the logs
  // ---------------------------------------------------------------------------

  predicate SameAccounts(ov: Overlay, ov': Overlay) { ov.objects == ov'.objects && ov.refund == ov'.refund }

  /** The journals differ in logs and in the snapshots in nested use at most. */
  predicate SameButLogs(j: Journal, j': Journal)
  {
    && SameAccounts(j.current, j'.current) && |j.saved| == |j'.saved|
    && forall i :: 0 <= i < |j.saved| ==> SameAccounts(j.saved[i], j'.saved[i])
  }

  lemma ApplyIgnoresLogs(base: Base, ov: Overlay, ov': Overlay, op: Op)
    requires SameAccounts(ov, ov')
    ensures SameAccounts(Apply(base, ov, op), Apply(base, ov', op))
  {
    assert forall a :: Lookup(base, ov, a) == Lookup(base, ov', a);
    if op.SetStorage? {
      SetStorageIgnoresLogs(base, ov, ov', op);
    }
    hide Lookup, ApplySetStorage, WithSlot;
  }

  lemma SetStorageIgnoresLogs(base: Base, ov: Overlay, ov': Overlay, op: Op)
    requires SameAccounts(ov, ov') && op.SetStorage?
    ensures SameAccounts(Apply(base, ov, op), Apply(base, ov', op))
  {
    hide RefundDelta, WithSlot;
    assert Lookup(base, ov, op.a) == Lookup(base, ov', op.a);
    hide Lookup;
  }

  lemma StepIgnoresLogs(base: Base, j: Journal, j': Journal, c: Command)
    requires SameButLogs(j, j') && Enabled(j, c)
    ensures Enabled(j', c) && SameButLogs(Step(base, j, c), Step(base, j', c))
  {
    hide Apply;
    if c.Do? {
      ApplyIgnoresLogs(base, j.current, j'.current, c.op);
    }
  }

  lemma {:induction false} ExecIgnoresLogs(base: Base, j: Journal, j': Journal, cs: seq<Command>)
    requires SameButLogs(j, j') && CanRun(base, j, cs)
    ensures CanRun(base, j', cs) && SameButLogs(Exec(base, j, cs), Exec(base, j', cs))
    decreases |cs|
  {
    if cs != [] {
      StepIgnoresLogs(base, j, j', cs[0]);
      hide SameButLogs, Step;
      ExecIgnoresLogs(base, Step(base, j, cs[0]), Step(base, j', cs[0]), cs[1..]);
    }
  }
}
