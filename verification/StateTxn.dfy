/** The transaction object of the state package on the heap: accounts, balances and storage
    handles are mutable objects shared between the current tree and the saved trees, and log
    slices share backing arrays. Every method is proved against `WorldState`. */
module StateTxn {
  import opened Wrappers
  import opened WorldState
  import opened StateCommit
  import OperationReads
  import CodeReads
  import opened Words

  class BigInt {
    var v: int

    constructor (v: int)
      ensures this.v == v
    {
      this.v := v;
    }
  }

  class HeapAccount {
    var nonce: U64
    var balance: BigInt
    var root: Root
    var codeHash: Digest

    constructor (nonce: U64, balance: BigInt, root: Root, codeHash: Digest)
      ensures this.nonce == nonce && this.balance == balance && this.root == root && this.codeHash == codeHash
    {
      this.nonce, this.balance, this.root, this.codeHash := nonce, balance, root, codeHash;
    }

    ghost function Value(): Account
      reads this, balance
    {
      Account(nonce, balance.v, root, codeHash)
    }

    method Copy() returns (c: HeapAccount)
      ensures fresh(c) && fresh(c.balance)
      ensures c.Value() == CopyAccount(Value())
    {
      var b := new BigInt(Abs(balance.v));
      c := new HeapAccount(nonce, b, root, codeHash);
    }
  }

  /** A mutable handle on an immutable tree of storage slots. */
  class StorageTxn {
    var entries: map<Word, Option<Word>>

    constructor (entries: map<Word, Option<Word>>)
      ensures this.entries == entries
    {
      this.entries := entries;
    }
  }

  class StateObject {
    var account: HeapAccount
    var code: seq<Byte>
    var suicide: bool
    var deleted: bool
    var dirtyCode: bool
    var txn: StorageTxn?

    constructor (account: HeapAccount)
      ensures this.account == account && code == [] && !suicide && !deleted && !dirtyCode && txn == null
    {
      this.account, code, suicide, deleted, dirtyCode, txn := account, [], false, false, false, null;
    }

    ghost function Value(): Object
      reads this, account, account.balance, txn
    {
      Object(account.Value(), code, suicide, deleted, dirtyCode, if txn == null then None else Some(txn.entries))
    }

    /** Shares nothing mutable with the original. */
    method Copy() returns (c: StateObject)
      ensures Detached(c)
      ensures c.Value() == CopyObject(Value())
    {
      var a := account.Copy();
      c := new StateObject(a);
      c.suicide, c.deleted, c.dirtyCode, c.code := suicide, deleted, dirtyCode, code;
      if txn != null {
        c.txn := new StorageTxn(txn.entries);
      }
    }
  }

  /** Everything the object can be changed through was allocated since. */
  twostate predicate Detached(new o: StateObject)
    reads o, o.account
  {
    fresh(o) && fresh(o.account) && fresh(o.account.balance) && (o.txn != null ==> fresh(o.txn))
  }

  /** A slice of logs: the first len elements of a backing array that others may share. */
  datatype Slice = Slice(arr: array<Log>, len: nat)

  datatype Tree = Tree(objects: map<Address, StateObject>, logs: Option<Slice>, refund: Option<U64>)

  ghost predicate Holds(repr: set<object>, o: StateObject, v: Object)
    reads repr
  {
    && o in repr && o.account in repr && o.account.balance in repr && (o.txn != null ==> o.txn in repr)
    && o.Value() == v
  }

  /** Accounts and refund of the tree are those of the overlay. */
  ghost predicate TreeHolds(repr: set<object>, t: Tree, ov: Overlay)
    reads repr
  {
    && t.objects.Keys == ov.objects.Keys
    && (forall a :: a in t.objects ==> Holds(repr, t.objects[a], ov.objects[a]))
    && t.refund == ov.refund
  }

  ghost predicate SliceOk(arrays: set<array<Log>>, s: Option<Slice>)
  {
    s.Some? ==> s.value.arr in arrays && s.value.len <= s.value.arr.Length
  }

  ghost function Contents(s: Option<Slice>): Option<seq<Log>>
    requires s.Some? ==> s.value.len <= s.value.arr.Length
    reads if s.Some? then {s.value.arr} else {}
  {
    match s case None => None case Some(sl) => Some(sl.arr[..sl.len])
  }

  /** If both slices use the same backing array, s ends no later than t. */
  ghost predicate NotAbove(s: Option<Slice>, t: Option<Slice>)
  {
    s.Some? && t.Some? && s.value.arr == t.value.arr ==> s.value.len <= t.value.len
  }

  /** All slices are in known arrays, and no live snapshot's slice reaches beyond a later one, or
      the current one, in the same array. */
  ghost predicate LogsLayout(arrays: set<array<Log>>, logs: Option<Slice>, snapshots: seq<Tree>, saved: nat,
                             live: seq<nat>)
  {
    && SliceOk(arrays, logs)
    && (forall i :: 0 <= i < |snapshots| ==> SliceOk(arrays, snapshots[i].logs))
    && (forall n :: 0 <= n < |live| ==> live[n] < |snapshots| && live[n] < saved)
    && (forall n :: 0 <= n < |live| ==> NotAbove(snapshots[live[n]].logs, logs))
    && (forall m, n :: 0 <= m < n < |live| ==> NotAbove(snapshots[live[m]].logs, snapshots[live[n]].logs))
  }

  /** The current slice shows the current logs, and every live snapshot's the saved ones. */
  ghost predicate LogsHold(arrays: set<array<Log>>, logs: Option<Slice>, snapshots: seq<Tree>,
                           current: Option<seq<Log>>, saved: seq<Overlay>, live: seq<nat>)
    reads arrays
  {
    && LogsLayout(arrays, logs, snapshots, |saved|, live) && Contents(logs) == current
    && forall n :: 0 <= n < |live| ==> Contents(snapshots[live[n]].logs) == saved[live[n]].logs
  }

  lemma LogsRevert(arrays: set<array<Log>>, logs: Option<Slice>, snapshots: seq<Tree>, j: Journal, id: nat)
    requires LogsHold(arrays, logs, snapshots, j.current.logs, j.saved, j.live)
    requires id < |snapshots| == |j.saved|
    ensures SliceOk(arrays, snapshots[id].logs)
    ensures var slice := snapshots[id].logs;
            LogsHold(arrays, slice, snapshots, Contents(slice), j.saved, Upto(j.live, id))
    ensures id in j.live ==> Contents(snapshots[id].logs) == j.saved[id].logs
  {
    hide Upto;
    var live := Upto(j.live, id);
    UptoPrefix(j.live, id);
    assert forall n :: 0 <= n < |live| ==> live[n] == j.live[n];
  }

  lemma LogsSnapshot(arrays: set<array<Log>>, overlay: Tree, snapshots: seq<Tree>, j: Journal)
    requires LogsHold(arrays, overlay.logs, snapshots, j.current.logs, j.saved, j.live) && |snapshots| == |j.saved|
    ensures LogsHold(arrays, overlay.logs, snapshots + [overlay], j.current.logs, j.saved + [j.current],
                     j.live + [|j.saved|])
  {
  }

  lemma LayoutAppended(arrays: set<array<Log>>, logs: Option<Slice>, snapshots: seq<Tree>, saved: nat, live: seq<nat>,
                       slice: Slice)
    requires LogsLayout(arrays, logs, snapshots, saved, live) && slice.len <= slice.arr.Length
    requires slice.arr in arrays ==> logs.Some? && slice.arr == logs.value.arr && slice.len == logs.value.len + 1
    ensures LogsLayout(arrays + {slice.arr}, Some(slice), snapshots, saved, live)
  {
  }

  /** The slice that appending one log gives: the same array while there is room. */
  ghost predicate Appended(s: Option<Slice>, r: Slice, spare: nat)
  {
    match s
    case None => r.len == 1 && r.arr.Length == 1 + spare
    case Some(Slice(arr, len)) =>
      r.len == len + 1 && (if len < arr.Length then r.arr == arr else r.arr != arr && r.arr.Length == len + 1 + spare)
  }

  /** Appends as Go does: in place when the backing array has room, else into a new array
      with some spare room. */
  method Append(s: Option<Slice>, log: Log, spare: nat) returns (r: Slice)
    requires s.Some? ==> s.value.len <= s.value.arr.Length
    modifies if s.Some? then {s.value.arr} else {}
    ensures 0 < r.len <= r.arr.Length && Appended(s, r, spare)
    ensures r.arr[..r.len] == (if s.Some? then old(s.value.arr[..s.value.len]) else []) + [log]
    ensures fresh(r.arr) || (s.Some? && r.arr == s.value.arr && r.len == s.value.len + 1)
    ensures s.Some? ==>
              forall i :: 0 <= i < s.value.arr.Length && i != s.value.len ==> s.value.arr[i] == old(s.value.arr[i])
  {
    if s.None? {
      var arr := new Log[1 + spare](_ => log);
      return Slice(arr, 1);
    }
    var Slice(arr, len) := s.value;
    if len < arr.Length {
      arr[len] := log;
      return Slice(arr, len + 1);
    }
    var bigger := new Log[len + 1 + spare](_ => log);
    forall i | 0 <= i < len {
      bigger[i] := arr[i];
    }
    return Slice(bigger, len + 1);
  }

  /** The codes read from storage, by address. Any entries may be gone when one is added. */
  class CodeCache {
    var entries: map<Address, seq<Byte>>

    constructor ()
      ensures entries == map[]
    {
      entries := map[];
    }

    method Add(a: Address, code: seq<Byte>, dropped: set<Address>)
      modifies this
      ensures entries == (old(entries) - dropped)[a := code]
    {
      entries := (entries - dropped)[a := code];
    }
  }

  class Txn {
    const base: Base
    const codeCache: CodeCache
    var overlay: Tree
    var snapshots: seq<Tree>

    /** What the object stands for. */
    ghost var journal: Journal

    /** Every account object ever put into a tree; none of them is written again. */
    ghost var repr: set<object>
    ghost var arrays: set<array<Log>>

    ghost predicate LogsValid()
      reads this, arrays
    {
      LogsHold(arrays, overlay.logs, snapshots, journal.current.logs, journal.saved, journal.live)
    }

    ghost predicate Valid()
      reads this, repr, arrays
    {
      && this !in repr && codeCache !in repr
      && (forall x :: x in arrays ==> x !in repr)
      && |snapshots| == |journal.saved|
      && TreeHolds(repr, overlay, journal.current)
      && (forall i :: 0 <= i < |snapshots| ==> TreeHolds(repr, snapshots[i], journal.saved[i]))
      && LogsValid()
    }

    constructor (base: Base)
      ensures Valid() && this.base == base && fresh(codeCache) && codeCache.entries == map[]
      ensures journal == Journal(EMPTY_OVERLAY, [], []) && arrays == {} && overlay.logs == None && snapshots == []
    {
      this.base := base;
      codeCache := new CodeCache();
      overlay, snapshots := Tree(map[], None, None), [];
      journal, repr, arrays := Journal(EMPTY_OVERLAY, [], []), {}, {};
    }

    method Snapshot() returns (id: nat)
      requires Valid()
      modifies this
      ensures Valid()
      ensures id == |old(journal.saved)|
      ensures journal == Step(base, old(journal), TakeSnapshot)
      ensures snapshots == old(snapshots) + [overlay] && overlay == old(overlay) && arrays == old(arrays)
    {
      hide Apply, TreeHolds, LogsHold;
      LogsSnapshot(arrays, overlay, snapshots, journal);
      id := |snapshots|;
      snapshots := snapshots + [overlay];
      journal := Step(base, journal, TakeSnapshot);
    }

    /** Any earlier snapshot gives back its accounts and refund; a nested one gives back
        its logs too. */
    method RevertToSnapshot(id: nat)
      requires Valid()
      requires id < |snapshots|
      modifies this
      ensures Valid()
      ensures journal.saved == old(journal.saved)
      ensures journal.current.objects == old(journal.saved[id].objects)
      ensures journal.current.refund == old(journal.saved[id].refund)
      ensures id in old(journal.live) ==> journal == Step(base, old(journal), RevertTo(id))
      ensures overlay == snapshots[id] && snapshots == old(snapshots) && arrays == old(arrays)
    {
      hide Apply, TreeHolds, Upto, LogsHold;
      LogsRevert(arrays, overlay.logs, snapshots, journal, id);
      assert TreeHolds(repr, snapshots[id], journal.saved[id]);
      TreeHoldsAnyLogs(repr, snapshots[id], journal.saved[id], snapshots[id].logs, Contents(snapshots[id].logs));
      overlay := snapshots[id];
      journal := Journal(journal.saved[id].(logs := Contents(overlay.logs)), journal.saved, Upto(journal.live, id));
    }

    /** A detached copy of what the address reads as. */
    method GetStateObject(a: Address) returns (obj: StateObject?)
      requires Valid()
      ensures obj == null <==> Lookup(base, journal.current, a).None?
      ensures obj != null ==> Detached(obj) && Lookup(base, journal.current, a) == Some(obj.Value())
    {
      if a in overlay.objects {
        var o := overlay.objects[a];
        assert Holds(repr, o, journal.current.objects[a]);
        if o.deleted {
          return null;
        }
        obj := o.Copy();
        return;
      }
      if a !in base.accounts {
        return null;
      }
      var acct := base.accounts[a];
      var b := new BigInt(Abs(acct.balance));
      var h := new HeapAccount(acct.nonce, b, acct.root, acct.codeHash);
      obj := new StateObject(h);
    }

    method NewObject() returns (obj: StateObject)
      ensures Detached(obj)
      ensures obj.Value() == FreshObject()
    {
      var b := new BigInt(0);
      var h := new HeapAccount(0, b, EMPTY_ROOT, EMPTY_CODE_HASH);
      obj := new StateObject(h);
    }

    /** The object an update may change: a copy, or a new account. */
    method Fetch(a: Address) returns (obj: StateObject)
      requires Valid()
      ensures Detached(obj)
      ensures obj.Value() == Upserted(base, journal.current, a)
    {
      var o := GetStateObject(a);
      if o == null {
        obj := NewObject();
      } else {
        obj := o;
      }
    }

    method Insert(a: Address, obj: StateObject)
      requires Valid()
      modifies this
      ensures Valid()
      ensures journal == old(journal).(current := WorldState.Insert(old(journal.current), a, obj.Value()))
      ensures arrays == old(arrays) && overlay.logs == old(overlay.logs)
    {
      hide TreeHolds, LogsHold;
      ghost var more: set<object> := {obj, obj.account, obj.account.balance};
      if obj.txn != null {
        var t: StorageTxn := obj.txn;
        more := more + {t};
      }
      TreeHoldsGrows(repr, repr + more, overlay, journal.current);
      TreeHoldsInsert(repr + more, overlay, journal.current, a, obj);
      forall i | 0 <= i < |snapshots|
        ensures TreeHolds(repr + more, snapshots[i], journal.saved[i])
      {
        TreeHoldsGrows(repr, repr + more, snapshots[i], journal.saved[i]);
      }
      repr := repr + more;
      overlay := overlay.(objects := overlay.objects[a := obj]);
      journal := journal.(current := WorldState.Insert(journal.current, a, obj.Value()));
    }

    // -------------------------------------------------------------------------
    // Accounts
    // -------------------------------------------------------------------------

    method AddBalance(a: Address, amount: int)
      requires Valid()
      modifies this
      ensures Valid()
      ensures journal == Step(base, old(journal), Do(Op.AddBalance(a, amount)))
      ensures arrays == old(arrays)
    {
      hide Valid;
      var o := Fetch(a);
      o.account.balance.v := o.account.balance.v + amount;
      Insert(a, o);
    }

    /** Refuses, and changes nothing, exactly when the balance is short. */
    method SubBalance(a: Address, amount: int) returns (ok: bool)
      requires Valid()
      modifies this
      ensures Valid()
      ensures ok <==> amount == 0 || GetBalance(base, old(journal.current), a) >= amount
      ensures journal == Step(base, old(journal), Do(Op.SubBalance(a, amount)))
      ensures arrays == old(arrays)
    {
      hide Valid;
      if amount == 0 {
        return true;
      }
      var balance := ReadBalance(a);
      if balance < amount {
        return false;
      }
      var o := Fetch(a);
      o.account.balance.v := o.account.balance.v - amount;
      Insert(a, o);
      return true;
    }

    method SetBalance(a: Address, amount: int)
      requires Valid()
      modifies this
      ensures Valid()
      ensures journal == Step(base, old(journal), Do(Op.SetBalance(a, amount)))
      ensures arrays == old(arrays)
    {
      hide Valid;
      var o := Fetch(a);
      o.account.balance.v := Abs(amount);
      Insert(a, o);
    }

    method AddSealingReward(a: Address, amount: int)
      requires Valid()
      modifies this
      ensures Valid()
      ensures journal == Step(base, old(journal), Do(Op.AddSealingReward(a, amount)))
      ensures arrays == old(arrays)
    {
      hide Valid;
      var o := Fetch(a);
      if o.suicide {
        o := NewObject();
        o.account.balance.v := Abs(amount);
      } else {
        o.account.balance.v := o.account.balance.v + amount;
      }
      Insert(a, o);
    }

    method SetNonce(a: Address, nonce: U64)
      requires Valid()
      modifies this
      ensures Valid()
      ensures journal == Step(base, old(journal), Do(Op.SetNonce(a, nonce)))
      ensures arrays == old(arrays)
    {
      hide Valid;
      var o := Fetch(a);
      o.account.nonce := nonce;
      Insert(a, o);
    }

    method IncrNonce(a: Address)
      requires Valid()
      modifies this
      ensures Valid()
      ensures journal == Step(base, old(journal), Do(Op.IncrNonce(a)))
      ensures arrays == old(arrays)
    {
      hide Valid;
      var o := Fetch(a);
      o.account.nonce := (o.account.nonce + 1) % TWO64;
      Insert(a, o);
    }

    /** The account then has this code, under the hash of its bytes. */
    method SetCode(a: Address, code: seq<Byte>)
      requires Valid()
      modifies this
      ensures Valid()
      ensures GetSetCode(base, journal.current, a) == Some(code)
      ensures GetCodeHash(base, journal.current, a) == Keccak(code)
      ensures journal == Step(base, old(journal), Do(Op.SetCode(a, code)))
      ensures arrays == old(arrays)
    {
      hide Valid;
      var o := Fetch(a);
      o.account.codeHash := Keccak(code);
      o.dirtyCode := true;
      o.code := code;
      Insert(a, o);
    }

    /** Marks the account once; the balance is zeroed every time. */
    method Suicide(a: Address) returns (suicided: bool)
      requires Valid()
      modifies this
      ensures Valid()
      ensures suicided <==> Exist(base, old(journal.current), a) && !HasSuicided(base, old(journal.current), a)
      ensures journal == Step(base, old(journal), Do(Op.Suicide(a)))
      ensures arrays == old(arrays)
    {
      hide Valid;
      suicided := false;
      var o := GetStateObject(a);
      if o != null {
        if !o.suicide {
          suicided := true;
          o.suicide := true;
        }
        var zero := new BigInt(0);
        o.account.balance := zero;
        Insert(a, o);
      }
    }

    method CreateAccount(a: Address)
      requires Valid()
      modifies this
      ensures Valid()
      ensures journal == Step(base, old(journal), Do(Op.CreateAccount(a)))
      ensures arrays == old(arrays)
    {
      hide Valid;
      var o := NewObject();
      var prev := GetStateObject(a);
      if prev != null {
        o.account.balance.v := Abs(prev.account.balance.v);
      }
      Insert(a, o);
    }

    method TouchAccount(a: Address)
      requires Valid()
      modifies this
      ensures Valid()
      ensures journal == Step(base, old(journal), Do(Op.TouchAccount(a)))
      ensures arrays == old(arrays)
    {
      hide Valid;
      var o := Fetch(a);
      Insert(a, o);
    }

    method ReadBalance(a: Address) returns (balance: int)
      requires Valid()
      ensures balance == GetBalance(base, journal.current, a)
    {
      var o := GetStateObject(a);
      balance := if o == null then 0 else o.account.balance.v;
    }

    // -------------------------------------------------------------------------
    // Storage and refunds
    // -------------------------------------------------------------------------

    method SetState(a: Address, key: Word, value: Word)
      requires Valid()
      modifies this
      ensures Valid()
      ensures journal == old(journal).(current :=
                var o := Upserted(base, old(journal.current), a);
                WorldState.Insert(old(journal.current), a, WithSlot(o, key, value)))
      ensures arrays == old(arrays)
    {
      hide Valid;
      var o := Fetch(a);
      if o.txn == null {
        o.txn := new StorageTxn(map[]);
      }
      o.txn.entries := o.txn.entries[key := if value == ZERO_WORD then None else Some(value)];
      Insert(a, o);
    }

    method ReadState(a: Address, key: Word) returns (value: Word)
      requires Valid()
      ensures value == GetState(base, journal.current, a, key)
    {
      var o := GetStateObject(a);
      if o == null {
        return ZERO_WORD;
      }
      if o.txn != null && key in o.txn.entries {
        var entry := o.txn.entries[key];
        return if entry.None? then ZERO_WORD else entry.value;
      }
      return GetStorage(base, o.account.root, key);
    }

    /** A code set in this transaction, else the cached one, else the stored one, which is then
        cached. */
    method GetCode(a: Address, dropped: set<Address>) returns (code: seq<Byte>)
      requires Valid()
      modifies codeCache
      ensures Valid()
      ensures code == CodeRead(base, journal.current, old(codeCache.entries), a)
      ensures codeCache.entries == EntriesAfter(base, journal.current, old(codeCache.entries), a, dropped)
    {
      hide TreeHolds, LogsHold;
      var o := GetStateObject(a);
      if o == null {
        return [];
      }
      if o.dirtyCode {
        return o.code;
      }
      if a in codeCache.entries {
        return codeCache.entries[a];
      }
      code := StoredCode(base, o.account.codeHash);
      codeCache.Add(a, code, dropped);
    }

    method ReadCommittedState(a: Address, key: Word) returns (value: Word)
      requires Valid()
      ensures value == GetCommittedState(base, journal.current, a, key)
    {
      var o := GetStateObject(a);
      value := if o == null then ZERO_WORD else GetStorage(base, o.account.root, key);
    }

    /** Adds to the counter in 64-bit arithmetic; SubRefund is the same with a negative delta. */
    method BookRefund(delta: int)
      requires Valid()
      modifies this
      ensures Valid()
      ensures journal == old(journal).(current := WithRefund(old(journal.current), delta))
      ensures arrays == old(arrays)
    {
      hide TreeHolds;
      TreeHoldsRefund(repr, overlay, journal.current, (GetRefund(journal.current) + delta) % TWO64);
      var refund := if overlay.refund.Some? then overlay.refund.value else 0;
      overlay := overlay.(refund := Some((refund + delta) % TWO64));
      journal := journal.(current := WithRefund(journal.current, delta));
    }

    /** Writes a slot and books the refund of the metering in force. */
    method SetStorage(a: Address, key: Word, value: Word, forks: Forks) returns (status: StorageStatus)
      requires Valid()
      modifies this
      ensures Valid()
      ensures journal == old(journal).(current := ApplySetStorage(base, old(journal.current), a, key, value, forks))
      ensures arrays == old(arrays)
      ensures var original := GetCommittedState(base, old(journal.current), a, key);
              var current := GetState(base, old(journal.current), a, key);
              var dirty := (forks.istanbul || (forks.constantinople && !forks.petersburg)) && original != current;
              && (status == Unchanged <==> current == value)
              && (status == ModifiedAgain <==> current != value && dirty)
              && (status == Added <==> current != value && !dirty && current == 0)
              && (status == Deleted <==> current != value && !dirty && current != 0 && value == 0)
              && (status == Modified <==> current != value && !dirty && current != 0 && value != 0)
    {
      hide Valid, GetState, GetCommittedState, Upserted, WithSlot;
      var current := ReadState(a, key);
      if current == value {
        return Unchanged;
      }
      var original := ReadCommittedState(a, key);
      SetState(a, key, value);
      var legacy := !forks.istanbul && (forks.petersburg || !forks.constantinople);
      if legacy {
        if current == ZERO_WORD {
          return Added;
        } else if value == ZERO_WORD {
          BookRefund(15000);
          return Deleted;
        }
        return Modified;
      }
      if original == current {
        if original == ZERO_WORD {
          return Added;
        }
        if value == ZERO_WORD {
          BookRefund(15000);
          return Deleted;
        }
        return Modified;
      }
      BookDirtyRefund(original, current, value, forks);
      return ModifiedAgain;
    }

    /** Net metering of a slot that was already written in this transaction. */
    method BookDirtyRefund(original: Word, current: Word, value: Word, forks: Forks)
      requires Valid() && !Legacy(forks) && original != current && current != value
      modifies this
      ensures Valid() && arrays == old(arrays)
      ensures var delta := RefundDelta(forks, original, current, value);
              journal == if delta == 0 then old(journal)
                         else old(journal).(current := WithRefund(old(journal.current), delta))
    {
      hide Valid, WithRefund;
      TwoRefunds(journal.current, if current == ZERO_WORD then -15000 else 15000, ResetBonus(forks, original));
      if original != ZERO_WORD {
        if current == ZERO_WORD {
          BookRefund(-15000);
        } else if value == ZERO_WORD {
          BookRefund(15000);
        }
      }
      if original == value {
        if original == ZERO_WORD {
          BookRefund(if forks.istanbul then 19200 else 19800);
        } else {
          BookRefund(if forks.istanbul then 4200 else 4800);
        }
      }
    }

    // -------------------------------------------------------------------------
    // Logs
    // -------------------------------------------------------------------------

    method AddLog(log: Log, spare: nat)
      requires Valid()
      modifies this, if overlay.logs.Some? then {overlay.logs.value.arr} else {}
      ensures Valid()
      ensures journal == old(journal).(current := WithLog(old(journal.current), log))
      ensures overlay.logs.Some? && Appended(old(overlay.logs), overlay.logs.value, spare)
      ensures overlay.logs.value.arr in arrays
      ensures snapshots == old(snapshots) && fresh(arrays - old(arrays))
    {
      hide TreeHolds;
      var slice := Append(overlay.logs, log, spare);
      forall n | 0 <= n < |journal.live|
        ensures Contents(snapshots[journal.live[n]].logs) == journal.saved[journal.live[n]].logs
      {
        var saved := snapshots[journal.live[n]].logs;
        assert old(Contents(saved)) == journal.saved[journal.live[n]].logs && NotAbove(saved, overlay.logs);
        if saved.Some? {
          assert saved.value.arr[..saved.value.len] == old(saved.value.arr[..saved.value.len]);
        }
      }
      LayoutAppended(arrays, overlay.logs, snapshots, |journal.saved|, journal.live, slice);
      hide LogsLayout;
      TreeHoldsAnyLogs(repr, overlay, journal.current, Some(slice), WithLog(journal.current, log).logs);
      overlay := overlay.(logs := Some(slice));
      arrays := arrays + {slice.arr};
      journal := journal.(current := WithLog(journal.current, log));
    }

    method TakeLogs() returns (logs: seq<Log>)
      requires Valid()
      modifies this
      ensures Valid()
      ensures logs == (if old(journal.current.logs).Some? then old(journal.current.logs).value else [])
      ensures journal == Step(base, old(journal), Do(Op.TakeLogs))
      ensures arrays == old(arrays)
    {
      hide TreeHolds;
      TreeHoldsAnyLogs(repr, overlay, journal.current, None, None);
      logs := if overlay.logs.Some? then overlay.logs.value.arr[..overlay.logs.value.len] else [];
      overlay := overlay.(logs := None);
      journal := journal.(current := Apply(base, journal.current, Op.TakeLogs));
    }

    // -------------------------------------------------------------------------
    // Clean-up and commit
    // -------------------------------------------------------------------------

    lemma LogsRead()
      requires Valid()
      ensures SliceOk(arrays, overlay.logs) && Contents(overlay.logs) == journal.current.logs
    {
    }

    lemma KeysAgree()
      requires Valid()
      ensures overlay.objects.Keys == journal.current.objects.Keys
      ensures |snapshots| == |journal.saved|
    {
    }

    lemma ObjectAt(a: Address)
      requires Valid()
      ensures a in overlay.objects <==> a in journal.current.objects
      ensures a in overlay.objects ==> Holds(repr, overlay.objects[a], journal.current.objects[a])
    {
    }

    method FindDoomed(deleteEmpty: bool) returns (remove: seq<Address>)
      requires Valid()
      ensures forall a ::
                a in remove <==> a in journal.current.objects && Doomed(journal.current.objects[a], deleteEmpty)
    {
      hide Valid;
      remove := [];
      var todo := overlay.objects.Keys;
      while todo != {}
        invariant todo <= overlay.objects.Keys
        invariant forall a :: a in remove ==> a in journal.current.objects
        invariant forall a :: a in remove <==>
                    a in overlay.objects && a !in todo && a in journal.current.objects
                    && Doomed(journal.current.objects[a], deleteEmpty)
        decreases todo
      {
        var a :| a in todo;
        ObjectAt(a);
        var o := overlay.objects[a];
        if o.suicide
           || (o.account.nonce == 0 && o.account.balance.v == 0 && o.account.codeHash == EMPTY_CODE_HASH
               && deleteEmpty) {
          remove := remove + [a];
        }
        todo := todo - {a};
      }
      KeysAgree();
    }

    method MarkOne(a: Address, ghost objects: map<Address, Object>, ghost done: seq<Address>)
      requires Valid()
      requires a in objects && journal.current.objects == MarkDeleted(objects, done)
      modifies this
      ensures Valid() && arrays == old(arrays)
      ensures journal == old(journal).(current := old(journal.current).(objects := MarkDeleted(objects, done + [a])))
    {
      hide Valid, MarkDeleted;
      MarkDeletedOne(objects, done, a);
      ObjectAt(a);
      var c := overlay.objects[a].Copy();
      c.deleted := true;
      Insert(a, c);
    }

    method MarkAll(remove: seq<Address>)
      requires Valid()
      requires forall a :: a in remove ==> a in journal.current.objects
      modifies this
      ensures Valid() && arrays == old(arrays)
      ensures var marked := MarkDeleted(old(journal.current.objects), remove);
              journal == old(journal).(current := old(journal.current).(objects := marked))
    {
      hide Valid;
      ghost var objects := journal.current.objects;
      assert objects == MarkDeleted(objects, remove[..0]);
      for i := 0 to |remove|
        invariant Valid() && arrays == old(arrays)
        invariant var marked := MarkDeleted(objects, remove[..i]);
                  journal == old(journal).(current := old(journal.current).(objects := marked))
      {
        MarkOne(remove[i], objects, remove[..i]);
        assert remove[..i + 1] == remove[..i] + [remove[i]];
      }
      assert remove[..|remove|] == remove;
    }

    /** Replaces every doomed object by a copy marked deleted and clears the refund. */
    method CleanDeleteObjects(deleteEmpty: bool)
      requires Valid()
      modifies this
      ensures Valid()
      ensures journal == Step(base, old(journal), Do(Op.CleanDelete(deleteEmpty)))
      ensures arrays == old(arrays)
    {
      hide Valid;
      var remove := FindDoomed(deleteEmpty);
      MarkAll(remove);
      DropRefund();
      ghost var objects := old(journal.current.objects);
      assert MarkDeleted(objects, remove) == CleanObjects(objects, deleteEmpty);
    }

    method DropRefund()
      requires Valid()
      modifies this
      ensures Valid() && arrays == old(arrays)
      ensures journal == old(journal).(current := old(journal.current).(refund := None))
    {
      hide TreeHolds;
      TreeHoldsNoRefund(repr, overlay, journal.current);
      overlay := overlay.(refund := None);
      journal := journal.(current := journal.current.(refund := None));
    }

    /** Cleans up and lists every object of the tree. */
    method Commit(deleteEmpty: bool) returns (objs: seq<CommitObject>)
      requires Valid()
      modifies this
      ensures Valid()
      ensures journal == Step(base, old(journal), Do(Op.CleanDelete(deleteEmpty)))
      ensures ListsObjects(objs, CleanObjects(old(journal.current).objects, deleteEmpty))
      ensures WellFormed(base) && Resolvable(base, old(journal.current)) ==>
                && WellFormed(CommitAll(base, objs))
                && CodesCommitted(base, journal.current, CommitAll(base, objs).codes)
                && forall a :: ReadsAgree(CommitAll(base, objs), EMPTY_OVERLAY, base, journal.current, a)
    {
      hide Valid, WellFormed, Resolvable, CommitAll, ReadsAgree, ListsObjects, CleanObjects, CodesCommitted;
      CleanDeleteObjects(deleteEmpty);
      objs := Walk();
      if WellFormed(base) && Resolvable(base, old(journal.current)) {
        ApplyKeepsResolvable(base, old(journal.current), CleanDelete(deleteEmpty));
        CommitKeepsWellFormed(base, journal.current, objs);
        CommitCodes(base, journal.current, objs);
        forall a
          ensures ReadsAgree(CommitAll(base, objs), EMPTY_OVERLAY, base, journal.current, a)
        {
          CommitReadsAsOverlay(base, journal.current, objs, a);
        }
      }
    }

    method Walk() returns (objs: seq<CommitObject>)
      requires Valid()
      ensures ListsObjects(objs, journal.current.objects)
    {
      hide TreeHolds, LogsHold, ListsObjects;
      objs := [];
      var todo := overlay.objects.Keys;
      ghost var objects := journal.current.objects;
      KeysAgree();
      assert objects - todo == map[];
      ListsNothing();
      while todo != {}
        invariant todo <= overlay.objects.Keys
        invariant ListsObjects(objs, objects - todo)
        decreases todo
      {
        var a :| a in todo;
        var c := Describe(a);
        ListsOneMore(objs, objects - todo, c, objects[a]);
        assert objects - (todo - {a}) == (objects - todo)[a := objects[a]];
        objs := objs + [c];
        todo := todo - {a};
      }
      assert objects - todo == objects;
    }

    method Describe(a: Address) returns (c: CommitObject)
      requires Valid() && a in overlay.objects
      ensures c.address == a && Describes(c, journal.current.objects[a])
    {
      var o := overlay.objects[a];
      assert Holds(repr, o, journal.current.objects[a]);
      var storage: seq<StorageEntry> := [];
      if !o.deleted && o.txn != null {
        storage := ListStorage(o.txn.entries);
      }
      c := CommitObject(a, o.account.nonce, o.account.balance.v, o.account.root, o.account.codeHash,
                        o.deleted, o.dirtyCode, o.code, storage);
    }

    // -------------------------------------------------------------------------
    // Whole runs
    // -------------------------------------------------------------------------

    method PerformBalance(op: Op)
      requires Valid() && OperationReads.BalanceOp(op)
      modifies this
      ensures Valid() && arrays == old(arrays)
      ensures journal == Step(base, old(journal), Do(op))
    {
      hide Valid;
      match op
      case AddBalance(a, amount) => AddBalance(a, amount);
      case SubBalance(a, amount) => var _ := SubBalance(a, amount);
      case SetBalance(a, amount) => SetBalance(a, amount);
      case AddSealingReward(a, amount) => AddSealingReward(a, amount);
    }

    method PerformField(op: Op)
      requires Valid() && OperationReads.FieldOp(op)
      modifies this
      ensures Valid() && arrays == old(arrays)
      ensures journal == Step(base, old(journal), Do(op))
    {
      hide Valid;
      match op
      case SetNonce(a, nonce) => SetNonce(a, nonce);
      case IncrNonce(a) => IncrNonce(a);
      case SetCode(a, code) => SetCode(a, code);
      case SetState(a, key, value) => SetState(a, key, value);
      case TouchAccount(a) => TouchAccount(a);
    }

    method Perform(op: Op, spare: nat)
      requires Valid()
      modifies this, arrays
      ensures Valid()
      ensures journal == Step(base, old(journal), Do(op))
      ensures fresh(arrays - old(arrays))
    {
      assert overlay.logs.Some? ==> overlay.logs.value.arr in arrays;
      hide Valid;
      if OperationReads.BalanceOp(op) {
        PerformBalance(op);
      } else if OperationReads.FieldOp(op) {
        PerformField(op);
      } else {
        match op
        case SetStorage(a, key, value, forks) => var _ := SetStorage(a, key, value, forks);
        case Suicide(a) => var _ := Suicide(a);
        case CreateAccount(a) => CreateAccount(a);
        case AddLog(log) => AddLog(log, spare);
        case TakeLogs => var _ := TakeLogs();
        case AddRefund(gas) => BookRefund(gas);
        case CleanDelete(deleteEmpty) => CleanDeleteObjects(deleteEmpty);
      }
    }

    /** The heap object follows the journal through every run, whatever spare room the appends
        leave: accounts and refund, current and saved, always, and the logs as long as reverts go
        to snapshots in nested use. */
    method Replay(cs: seq<Command>, spare: nat -> nat)
      requires Valid() && CanRun(base, journal, cs)
      modifies this, arrays
      ensures Valid() && fresh(arrays - old(arrays))
      ensures SameButLogs(journal, Exec(base, old(journal), cs))
      ensures NestedRun(base, old(journal), cs) ==> journal == Exec(base, old(journal), cs)
      decreases |cs|
    {
      hide Valid, SameButLogs, Step;
      SameAsItself(journal);
      if cs == [] {
        return;
      }
      var nested := Advance(cs[0], spare(|cs|));
      ghost var j := Step(base, old(journal), cs[0]);
      ExecIgnoresLogs(base, j, journal, cs[1..]);
      ghost var end := Exec(base, journal, cs[1..]);
      Replay(cs[1..], spare);
      SameButLogsChain(journal, end, Exec(base, j, cs[1..]));
    }

    /** One command of a run; says whether it was a revert outside nested use. */
    method Advance(c: Command, spare: nat) returns (ghost nested: bool)
      requires Valid() && Enabled(journal, c)
      modifies this, arrays
      ensures Valid() && fresh(arrays - old(arrays))
      ensures nested <==> (c.RevertTo? ==> c.id in old(journal.live))
      ensures SameButLogs(Step(base, old(journal), c), journal)
      ensures nested ==> journal == Step(base, old(journal), c)
    {
      hide Valid, Apply;
      nested := c.RevertTo? ==> c.id in journal.live;
      KeysAgree();
      match c {
        case Do(op) => Perform(op, spare);
        case TakeSnapshot => var _ := Snapshot();
        case RevertTo(id) => RevertToSnapshot(id);
      }
    }

    /** Snapshot, any nested run that leaves the snapshot live, revert: every read is back. */
    method SnapshotReplayRevert(cs: seq<Command>, spare: nat -> nat)
      requires Valid()
      requires var j := Step(base, journal, TakeSnapshot);
               NestedRun(base, j, cs) && CanRun(base, j, cs) && |journal.saved| in Exec(base, j, cs).live
      modifies this, arrays
      ensures Valid()
      ensures journal.current == old(journal.current)
    {
      hide Valid;
      var id := Snapshot();
      RevertRestores(base, journal, cs, id);
      Replay(cs, spare);
      KeysAgree();
      RevertToSnapshot(id);
    }
  }

  lemma SameAsItself(j: Journal)
    ensures SameButLogs(j, j)
  {
  }

  lemma SameButLogsChain(j: Journal, j': Journal, j'': Journal)
    requires SameButLogs(j, j') && SameButLogs(j'', j')
    ensures SameButLogs(j, j'')
  {
  }

  /** From the committed state on, the heap object's accounts and refund read after every run as
      the plain world's do, and its logs too after every nested run. */
  method ReplayFromBase(base: Base, cs: seq<Command>, spare: nat -> nat) returns (txn: Txn)
    requires CanRun(base, Journal(EMPTY_OVERLAY, [], []), cs)
    ensures fresh(txn) && txn.Valid() && txn.base == base
    ensures SameButLogs(txn.journal, Exec(base, Journal(EMPTY_OVERLAY, [], []), cs))
    ensures var h := OperationReads.HistoryRun(OperationReads.History(OperationReads.FromBase(base), []), cs);
            && h.Some? && OperationReads.AccountsReadAs(base, txn.journal.current, h.value.current)
            && (NestedRun(base, Journal(EMPTY_OVERLAY, [], []), cs) ==>
                  OperationReads.ReadsAs(base, txn.journal.current, h.value.current))
  {
    OperationReads.RunFromBaseReads(base, cs);
    ghost var end := Exec(base, Journal(EMPTY_OVERLAY, [], []), cs);
    txn := new Txn(base);
    hide Exec, CanRun, NestedRun, OperationReads.AccountsReadAs, OperationReads.HistoryRun, Txn.Valid;
    txn.Replay(cs, spare);
    ghost var h := OperationReads.HistoryRun(OperationReads.History(OperationReads.FromBase(base), []), cs);
    OperationReads.SameAccountsReadAs(base, end.current, txn.journal.current, h.value.current);
  }

  /** From the committed state on, every run and commit: the committed state, taken as the next
      transaction's world, has every account as the cleaned-up plain world has it, every slot
      committed as it was last written, and the codes set in the world stored. */
  method ReplayAndCommit(base: Base, cs: seq<Command>, spare: nat -> nat, deleteEmpty: bool)
      returns (objs: seq<CommitObject>)
    requires WellFormed(base) && CanRun(base, Journal(EMPTY_OVERLAY, [], []), cs)
    ensures WellFormed(CommitAll(base, objs))
    ensures var h := OperationReads.HistoryRun(OperationReads.History(OperationReads.FromBase(base), []), cs);
            && h.Some?
            && var w := OperationReads.CleanedUp(h.value.current, deleteEmpty);
            Succeeds(OperationReads.FromBase(CommitAll(base, objs)), w) && StoresCodes(base, CommitAll(base, objs), w)
  {
    hide StoresCodes, CodesCommitted;
    hide Exec, CanRun, NestedRun, CommitAll, WellFormed, ReadsAgree, ListsObjects, Txn.Valid;
    hide OperationReads.AccountsReadAs, OperationReads.HistoryRun, OperationReads.CleanedUp, Succeeds;
    RunResolvable(base, cs);
    var txn := ReplayFromBase(base, cs, spare);
    ghost var ov := txn.journal.current;
    assert Resolvable(base, ov);
    hide Resolvable;
    ghost var h := OperationReads.HistoryRun(OperationReads.History(OperationReads.FromBase(base), []), cs);
    objs := txn.Commit(deleteEmpty);
    OperationReads.CleanUpReadsAs(base, ov, h.value.current, deleteEmpty);
    CommittedSucceeds(base, ov, deleteEmpty, objs, OperationReads.CleanedUp(h.value.current, deleteEmpty));
    CommittedStores(base, ov, deleteEmpty, objs, OperationReads.CleanedUp(h.value.current, deleteEmpty));
  }

  /** Every account whose code was set has exactly that code stored under its code hash; what was
      stored before still is, and nothing else was added. */
  ghost predicate StoresCodes(before: Base, after: Base, w: OperationReads.World)
  {
    && (forall a :: w.view(a).setCode.Some? ==>
          && w.view(a).codeHash == Keccak(w.view(a).setCode.value)
          && w.view(a).codeHash in after.codes && after.codes[w.view(a).codeHash] == w.view(a).setCode.value)
    && (forall d :: d in before.codes ==> d in after.codes && after.codes[d] == before.codes[d])
    && (forall d :: d in after.codes && d !in before.codes ==> exists a :: w.view(a).setCode == Some(after.codes[d]))
  }

  lemma CommittedStores(base: Base, ov: Overlay, deleteEmpty: bool, objs: seq<CommitObject>, w: OperationReads.World)
    requires var clean := Apply(base, ov, CleanDelete(deleteEmpty));
             OperationReads.AccountsReadAs(base, clean, w) && CodesCommitted(base, clean, CommitAll(base, objs).codes)
    ensures StoresCodes(base, CommitAll(base, objs), w)
  {
    var clean, after := Apply(base, ov, CleanDelete(deleteEmpty)), CommitAll(base, objs);
    hide Apply, CommitAll, Lookup, Exist, GetBalance, GetNonce, GetCodeHash, HasSuicided, GetSetCode;
    forall a: Address | w.view(a).setCode.Some?
      ensures StoredAs(after.codes, w.view(a).codeHash, w.view(a).setCode.value)
    {
      assert OperationReads.ViewOf(base, clean, a) == w.view(a);
    }
    forall d | d in after.codes && d !in base.codes
      ensures exists a: Address :: w.view(a).setCode == Some(after.codes[d])
    {
      var a: Address :| GetSetCode(base, clean, a) == Some(after.codes[d]);
      assert OperationReads.ViewOf(base, clean, a) == w.view(a);
    }
  }

  lemma RunResolvable(base: Base, cs: seq<Command>)
    requires WellFormed(base) && CanRun(base, Journal(EMPTY_OVERLAY, [], []), cs)
    ensures Resolvable(base, Exec(base, Journal(EMPTY_OVERLAY, [], []), cs).current)
  {
    RunKeepsResolvable(base, Journal(EMPTY_OVERLAY, [], []), cs);
  }

  /** The world of the next transaction: the same accounts with no code set yet, and every slot
      committed as it last read. */
  ghost predicate Succeeds(next: OperationReads.World, w: OperationReads.World)
  {
    && (forall a :: next.view(a) == w.view(a).(setCode := None))
    && (forall a, k :: next.slot(a, k) == OperationReads.Unwritten(w.slot(a, k).current))
  }

  lemma CommittedSucceeds(base: Base, ov: Overlay, deleteEmpty: bool, objs: seq<CommitObject>, w: OperationReads.World)
    requires var clean := Apply(base, ov, CleanDelete(deleteEmpty));
             && OperationReads.AccountsReadAs(base, clean, w)
             && forall a :: ReadsAgree(CommitAll(base, objs), EMPTY_OVERLAY, base, clean, a)
    ensures Succeeds(OperationReads.FromBase(CommitAll(base, objs)), w)
  {
    var clean, after := Apply(base, ov, CleanDelete(deleteEmpty)), CommitAll(base, objs);
    OperationReads.RunFromBaseReads(after, []);
    assert forall a :: !HasSuicided(base, clean, a) && !HasSuicided(after, EMPTY_OVERLAY, a);
    assert forall a, k :: GetState(after, EMPTY_OVERLAY, a, k) == GetCommittedState(after, EMPTY_OVERLAY, a, k);
    assert forall a :: GetSetCode(after, EMPTY_OVERLAY, a) == None;
    hide Apply, CommitAll, Lookup, Exist, GetBalance, GetNonce, GetCodeHash, HasSuicided, GetState, GetCommittedState;
    hide GetSetCode, GetCode;
    var next := OperationReads.FromBase(after);
    forall a: Address
      ensures next.view(a) == w.view(a).(setCode := None)
    {
      assert ReadsAgree(after, EMPTY_OVERLAY, base, clean, a);
      assert OperationReads.ViewOf(after, EMPTY_OVERLAY, a) == next.view(a);
      assert OperationReads.ViewOf(base, clean, a) == w.view(a);
    }
    forall a: Address, k: Word
      ensures next.slot(a, k) == OperationReads.Unwritten(w.slot(a, k).current)
    {
      assert ReadsAgree(after, EMPTY_OVERLAY, base, clean, a);
      assert OperationReads.SlotAt(after, EMPTY_OVERLAY, a, k) == next.slot(a, k);
      assert OperationReads.SlotAt(base, clean, a, k) == w.slot(a, k);
    }
  }

  lemma CodesIgnoreLogs(base: Base, ov: Overlay, ov': Overlay, entries: map<Address, seq<Byte>>, a: Address,
                        dropped: set<Address>)
    requires SameAccounts(ov, ov')
    ensures CodeRead(base, ov, entries, a) == CodeRead(base, ov', entries, a)
    ensures EntriesAfter(base, ov, entries, a, dropped) == EntriesAfter(base, ov', entries, a, dropped)
  {
    assert Lookup(base, ov, a) == Lookup(base, ov', a);
  }

  lemma FollowsStep(base: Base, j: Journal, j': Journal, c: Command)
    requires SameButLogs(j, j') && Enabled(j', c)
    ensures Enabled(j, c) && SameButLogs(Step(base, j, c), Step(base, j', c))
  {
    StepIgnoresLogs(base, j', j, c);
  }

  lemma SameButLogsBoth(j: Journal, j': Journal, j'': Journal)
    requires SameButLogs(j, j') && SameButLogs(j, j'')
    ensures SameButLogs(j', j'')
  {
  }

  lemma SameNow(j: Journal, j': Journal)
    requires SameButLogs(j, j')
    ensures SameAccounts(j.current, j'.current)
  {
  }

  /** Any run with code reads in between leaves the journal and the cache its run on values has. */
  method ReplayReads(base: Base, acts: seq<CodeReads.Act>, spare: nat -> nat) returns (txn: Txn)
    requires CodeReads.CanAct(base, CodeReads.NEW_READER, acts)
    ensures fresh(txn) && fresh(txn.codeCache) && txn.Valid() && txn.base == base
    ensures var r := CodeReads.ActRun(base, CodeReads.NEW_READER, acts);
            SameButLogs(txn.journal, r.j) && txn.codeCache.entries == r.entries
  {
    txn := new Txn(base);
    hide Txn.Valid, Step, CodeRead, EntriesAfter, CodeReads.HashesAfter, SameButLogs;
    ghost var r := CodeReads.NEW_READER;
    SameAsItself(r.j);
    assert acts[0..] == acts;
    for i := 0 to |acts|
      invariant fresh(txn) && fresh(txn.codeCache) && fresh(txn.arrays) && txn.Valid() && txn.base == base
      invariant SameButLogs(txn.journal, r.j) && txn.codeCache.entries == r.entries
      invariant CodeReads.CanAct(base, r, acts[i..])
      invariant CodeReads.ActRun(base, r, acts[i..])
                == CodeReads.ActRun(base, CodeReads.NEW_READER, acts)
    {
      ghost var before := txn.journal;
      assert acts[i..][0] == acts[i] && acts[i..][1..] == acts[i + 1..];
      match acts[i] {
        case Perform(c) =>
          FollowsStep(base, txn.journal, r.j, c);
          var nested := txn.Advance(c, spare(i));
          SameButLogsBoth(Step(base, before, c), txn.journal, CodeReads.ActStep(base, r, acts[i]).j);
        case ReadCode(a, dropped) =>
          SameNow(txn.journal, r.j);
          CodesIgnoreLogs(base, txn.journal.current, r.j.current, r.entries, a, dropped);
          var _ := txn.GetCode(a, dropped);
      }
      r := CodeReads.ActStep(base, r, acts[i]);
    }
  }

  /** Any run with code reads in between, then one more: it returns the code of an account exactly
      when the account has not got another code hash since its code was cached, so always if no
      account starts over. */
  method ReadAfterRun(base: Base, acts: seq<CodeReads.Act>, spare: nat -> nat, a: Address) returns (code: seq<Byte>)
    requires WellFormed(base) && CodeReads.CanAct(base, CodeReads.NEW_READER, acts)
    requires Exist(base, CodeReads.ActRun(base, CodeReads.NEW_READER, acts).j.current, a)
    ensures var r := CodeReads.ActRun(base, CodeReads.NEW_READER, acts);
            && (Keccak(code) == GetCodeHash(base, r.j.current, a) <==> !CodeReads.Outdated(base, r, a))
            && (CodeReads.SettledRun(base, CodeReads.NEW_READER, acts) ==>
                  Keccak(code) == GetCodeHash(base, r.j.current, a))
  {
    CodeReads.CodeReadRightIff(base, acts, a);
    if CodeReads.SettledRun(base, CodeReads.NEW_READER, acts) {
      CodeReads.SettledReadsAreRight(base, acts, a);
    }
    hide CodeReads.CanAct, CodeReads.ActRun, CodeReads.SettledRun, CodeReads.Outdated, WellFormed;
    hide Txn.Valid, CodeRead, GetCodeHash, SameButLogs;
    ghost var r := CodeReads.ActRun(base, CodeReads.NEW_READER, acts);
    var txn := ReplayReads(base, acts, spare);
    SameNow(txn.journal, r.j);
    CodesIgnoreLogs(base, txn.journal.current, r.j.current, r.entries, a, {});
    code := txn.GetCode(a, {});
  }

  /** A run in which a revert outside nested use brings back other logs than were saved: the
      second snapshot's slice shares its array with the first's, and the log added after the
      revert to the first overwrites it. */
  method LogsOverwritten(base: Base, a: Log, b: Log, c: Log) returns (txn: Txn, logs: seq<Log>)
    requires b != c
    ensures |txn.journal.saved| == 2 && txn.journal.saved[1].logs == Some([a, a, a, b])
    ensures logs == [a, a, a, c]
  {
    hide Txn.Valid, TreeHolds, Apply, Upto;
    txn := ThreeLogs(base, a);
    assert [a, a, a] + [b] == [a, a, a, b] && [a, a, a] + [c] == [a, a, a, c];
    var first := txn.Snapshot();
    txn.AddLog(b, 0);
    var second := txn.Snapshot();
    txn.RevertToSnapshot(first);
    assert first in [0, 1];
    txn.AddLog(c, 0);
    txn.LogsRead();
    txn.RevertToSnapshot(second);
    txn.LogsRead();
    logs := txn.TakeLogs();
  }

  /** Three logs in a new transaction, with the capacities 1, 2 and 4 that Go's slices grow to. */
  method ThreeLogs(base: Base, a: Log) returns (txn: Txn)
    ensures fresh(txn) && txn.Valid() && fresh(txn.arrays)
    ensures txn.journal == Journal(EMPTY_OVERLAY.(logs := Some([a, a, a])), [], []) && txn.snapshots == []
    ensures txn.overlay.logs.Some? && txn.overlay.logs.value.len == 3 && txn.overlay.logs.value.arr.Length == 4
    ensures txn.overlay.logs.value.arr in txn.arrays
  {
    hide Txn.Valid, TreeHolds, Apply;
    assert [] + [a] == [a] && [a] + [a] == [a, a] && [a, a] + [a] == [a, a, a];
    txn := new Txn(base);
    txn.AddLog(a, 0);
    txn.AddLog(a, 0);
    txn.AddLog(a, 1);
  }

  /** Exactly when an append made after a revert overwrites what another saved slice shows:
      they share the array, the saved slice is the longer one, and there was room. */
  method AppendBeside(s: Slice, saved: Slice, log: Log, spare: nat) returns (r: Slice)
    requires s.len <= s.arr.Length && saved.len <= saved.arr.Length
    modifies s.arr
    ensures saved.arr[..saved.len] != old(saved.arr[..saved.len])
            <==> saved.arr == s.arr && s.len < saved.len && old(s.arr[..])[s.len] != log
  {
    r := Append(Some(s), log, spare);
    if saved.arr == s.arr && s.len < saved.len {
      assert saved.arr[..saved.len][s.len] == log && old(saved.arr[..saved.len])[s.len] == old(s.arr[..])[s.len];
      if old(s.arr[..])[s.len] == log {
        assert saved.arr[..saved.len] == old(saved.arr[..saved.len]);
      }
    } else {
      assert saved.arr[..saved.len] == old(saved.arr[..saved.len]);
    }
  }

  /** Lists the slots of a storage handle, in the order the walk finds them. */
  method ListStorage(slots: map<Word, Option<Word>>) returns (entries: seq<StorageEntry>)
    ensures ListsStorage(entries, slots)
  {
    entries := [];
    var todo := slots.Keys;
    while todo != {}
      invariant todo <= slots.Keys
      invariant ListsStorage(entries, slots - todo)
      decreases todo
    {
      var k :| k in todo;
      var e := StorageEntry(k, slots[k].None?, if slots[k].Some? then slots[k].value else ZERO_WORD);
      ListsOneMoreSlot(entries, slots - todo, e, slots[k]);
      assert slots - (todo - {k}) == (slots - todo)[k := slots[k]];
      entries := entries + [e];
      todo := todo - {k};
    }
    assert slots - todo == slots;
  }

  lemma ListsOneMoreSlot(entries: seq<StorageEntry>, slots: map<Word, Option<Word>>, e: StorageEntry, v: Option<Word>)
    requires ListsStorage(entries, slots) && e.key !in slots
    requires (e.deleted <==> v.None?) && (v.Some? ==> e.val == v.value)
    ensures ListsStorage(entries + [e], slots[e.key := v])
  {
    var more, after := entries + [e], slots[e.key := v];
    forall k | k in after
      ensures exists i :: 0 <= i < |more| && more[i].key == k
    {
      if k == e.key {
        assert more[|entries|].key == k;
      } else {
        var i :| 0 <= i < |entries| && entries[i].key == k;
        assert more[i].key == k;
      }
    }
  }

  lemma ListsNothing()
    ensures ListsObjects([], map[])
  {
  }

  lemma ListsOneMore(objs: seq<CommitObject>, objects: map<Address, Object>, c: CommitObject, o: Object)
    requires ListsObjects(objs, objects) && c.address !in objects && Describes(c, o)
    ensures ListsObjects(objs + [c], objects[c.address := o])
  {
    hide Describes;
    var more, after := objs + [c], objects[c.address := o];
    forall a | a in after
      ensures exists i :: 0 <= i < |more| && more[i].address == a
    {
      if a == c.address {
        assert more[|objs|].address == a;
      } else {
        var i :| 0 <= i < |objs| && objs[i].address == a;
        assert more[i].address == a;
      }
    }
  }

  /** The listed objects replaced by copies marked deleted. */
  ghost function MarkDeleted(objects: map<Address, Object>, done: seq<Address>): map<Address, Object>
  {
    map a | a in objects :: if a in done then CopyObject(objects[a]).(deleted := true) else objects[a]
  }

  lemma TwoRefunds(ov: Overlay, delta: int, more: int)
    ensures WithRefund(WithRefund(ov, delta), more) == WithRefund(ov, delta + more)
  {
    var sum := GetRefund(ov) + delta;
    assert (sum % TWO64 + more) % TWO64 == (sum + more) % TWO64;
  }

  lemma MarkDeletedOne(objects: map<Address, Object>, done: seq<Address>, a: Address)
    requires a in objects
    ensures var marked := MarkDeleted(objects, done);
            a in marked && marked[a := CopyObject(marked[a]).(deleted := true)] == MarkDeleted(objects, done + [a])
  {
  }

  lemma TreeHoldsNoRefund(repr: set<object>, t: Tree, ov: Overlay)
    requires TreeHolds(repr, t, ov)
    ensures TreeHolds(repr, t.(refund := None), ov.(refund := None))
  {
  }

  lemma TreeHoldsRefund(repr: set<object>, t: Tree, ov: Overlay, refund: U64)
    requires TreeHolds(repr, t, ov)
    ensures t.refund == ov.refund
    ensures TreeHolds(repr, t.(refund := Some(refund)), ov.(refund := Some(refund)))
  {
  }

  lemma TreeHoldsGrows(repr: set<object>, repr': set<object>, t: Tree, ov: Overlay)
    requires TreeHolds(repr, t, ov) && repr <= repr'
    ensures TreeHolds(repr', t, ov)
  {
    forall a | a in t.objects
      ensures Holds(repr', t.objects[a], ov.objects[a])
    {
      assert Holds(repr, t.objects[a], ov.objects[a]);
    }
  }

  lemma TreeHoldsInsert(repr: set<object>, t: Tree, ov: Overlay, a: Address, o: StateObject)
    requires TreeHolds(repr, t, ov) && Holds(repr, o, o.Value())
    ensures TreeHolds(repr, t.(objects := t.objects[a := o]), WorldState.Insert(ov, a, o.Value()))
  {
  }

  lemma TreeHoldsAnyLogs(repr: set<object>, t: Tree, ov: Overlay, slice: Option<Slice>, logs: Option<seq<Log>>)
    requires TreeHolds(repr, t, ov)
    ensures TreeHolds(repr, t.(logs := slice), ov.(logs := logs))
  {
  }

  lemma {:induction false} UptoPrefix(live: seq<nat>, id: nat)
    ensures Upto(live, id) <= live
    ensures id in live ==> Upto(live, id) != [] && Upto(live, id)[|Upto(live, id)| - 1] == id
    ensures id !in live ==> Upto(live, id) == []
  {
    if live != [] && live[|live| - 1] != id {
      UptoPrefix(live[..|live| - 1], id);
    }
  }
}
