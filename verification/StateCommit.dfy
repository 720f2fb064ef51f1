/** What Commit hands to the snapshot, and that applying it gives a snapshot that reads
    exactly as the overlay did. */
module StateCommit {
  import opened Wrappers
  import opened WorldState
  import opened Words

  datatype StorageEntry = StorageEntry(key: Word, deleted: bool, val: Word)

  datatype CommitObject = CommitObject(
    address: Address, nonce: U64, balance: int, root: Root, codeHash: Digest,
    deleted: bool, dirtyCode: bool, code: seq<Byte>, storage: seq<StorageEntry>)

  ghost predicate DistinctKeys(entries: seq<StorageEntry>)
  {
    forall i, j :: 0 <= i < j < |entries| ==> entries[i].key != entries[j].key
  }

  /** The entries list the slots, each once, in any order. */
  ghost predicate ListsStorage(entries: seq<StorageEntry>, slots: map<Word, Option<Word>>)
  {
    && DistinctKeys(entries)
    && (forall i :: 0 <= i < |entries| ==>
          var e := entries[i];
          && e.key in slots
          && (e.deleted <==> slots[e.key].None?)
          && (slots[e.key].Some? ==> e.val == slots[e.key].value))
    && (forall k :: k in slots ==> exists i :: 0 <= i < |entries| && entries[i].key == k)
  }

  ghost predicate Describes(c: CommitObject, o: Object)
  {
    && c.nonce == o.account.nonce && c.balance == o.account.balance
    && c.root == o.account.root && c.codeHash == o.account.codeHash
    && c.deleted == o.deleted && c.dirtyCode == o.dirtyCode && c.code == o.code
    && (if o.deleted || o.storage.None? then c.storage == [] else ListsStorage(c.storage, o.storage.value))
  }

  ghost predicate DistinctAddresses(objs: seq<CommitObject>)
  {
    forall i, j :: 0 <= i < j < |objs| ==> objs[i].address != objs[j].address
  }

  /** The list holds one description per overlay object, in any order. */
  ghost predicate ListsObjects(objs: seq<CommitObject>, objects: map<Address, Object>)
  {
    && DistinctAddresses(objs)
    && (forall i :: 0 <= i < |objs| ==> objs[i].address in objects && Describes(objs[i], objects[objs[i].address]))
    && (forall a :: a in objects ==> exists i :: 0 <= i < |objs| && objs[i].address == a)
  }

  // ---------------------------------------------------------------------------
  // The snapshot's side: an account map honouring deletion, root and storage list
  // ---------------------------------------------------------------------------

  function OpenTrie(base: Base, root: Root): map<Word, Word>
  {
    if root != EMPTY_ROOT && root in base.tries then root.contents else map[]
  }

  function ApplyStorage(trie: map<Word, Word>, entries: seq<StorageEntry>): map<Word, Word>
  {
    if entries == [] then trie else
      var e := entries[|entries| - 1];
      var t := ApplyStorage(trie, entries[..|entries| - 1]);
      if e.deleted then t - {e.key} else t[e.key := e.val]
  }

  function ApplyObject(base: Base, c: CommitObject): Base
  {
    if c.deleted then base.(accounts := base.accounts - {c.address})
    else
      var root := Root(ApplyStorage(OpenTrie(base, c.root), c.storage));
      Base(base.accounts[c.address := Account(c.nonce, Abs(c.balance), root, c.codeHash)], base.tries + {root},
           if c.dirtyCode then base.codes[c.codeHash := c.code] else base.codes)
  }

  /** The snapshot after committing the objects in list order. */
  function CommitAll(base: Base, objs: seq<CommitObject>): Base
  {
    if objs == [] then base else ApplyObject(CommitAll(base, objs[..|objs| - 1]), objs[|objs| - 1])
  }

  ghost predicate Known(base: Base, root: Root) { root == EMPTY_ROOT || root in base.tries }

  ghost predicate CodeKnown(base: Base, hash: Digest) { hash == EMPTY_CODE_HASH || hash in base.codes }

  /** A trie leaves out the slots that read zero. */
  ghost predicate NoZeros(trie: map<Word, Word>) { forall k :: k in trie ==> trie[k] != ZERO_WORD }

  ghost predicate TriesProper(base: Base) { forall r :: r in base.tries ==> NoZeros(r.contents) }

  /** Every account's storage can be opened and its code read, tries hold no zeros, and codes are
      stored under their own hash. */
  ghost predicate WellFormed(base: Base)
  {
    && (forall a :: a in base.accounts ==>
          Known(base, base.accounts[a].root) && CodeKnown(base, base.accounts[a].codeHash))
    && CodesTrue(base) && TriesProper(base)
  }

  ghost predicate CodesTrue(base: Base) { forall d :: d in base.codes ==> d == Keccak(base.codes[d]) }

  /** A code set in this transaction is the one its hash says; any other hash is in the base. */
  ghost predicate CodeResolvable(base: Base, o: Object)
  {
    if o.dirtyCode then o.account.codeHash == Keccak(o.code) else CodeKnown(base, o.account.codeHash)
  }

  /** A slot that was set to zero is listed as cleared. */
  ghost predicate SlotsProper(o: Object)
  {
    o.storage.Some? ==> forall k :: k in o.storage.value ==> o.storage.value[k] != Some(ZERO_WORD)
  }

  ghost predicate ObjectResolvable(base: Base, o: Object)
  {
    Known(base, o.account.root) && CodeResolvable(base, o) && SlotsProper(o)
  }

  /** Storage and code of every object of the overlay can be found. */
  ghost predicate Resolvable(base: Base, ov: Overlay)
  {
    forall a :: a in ov.objects ==> ObjectResolvable(base, ov.objects[a])
  }

  lemma UpsertedResolvable(base: Base, ov: Overlay, a: Address)
    requires WellFormed(base) && Resolvable(base, ov)
    ensures ObjectResolvable(base, Upserted(base, ov, a)) && ObjectResolvable(base, FreshObject())
  {
    if a in ov.objects {
      assert ObjectResolvable(base, ov.objects[a]);
    }
  }

  lemma WriteKeepsResolvable(base: Base, o: Object, key: Word, value: Word)
    requires ObjectResolvable(base, o)
    ensures ObjectResolvable(base, WithSlot(o, key, value))
  {
  }

  lemma StorageKeepsResolvable(base: Base, ov: Overlay, op: Op, a: Address)
    requires Resolvable(base, ov) && ObjectResolvable(base, Upserted(base, ov, a))
    requires (op.SetStorage? || op.SetState?) && a in Apply(base, ov, op).objects
    ensures ObjectResolvable(base, Apply(base, ov, op).objects[a])
  {
    WriteKeepsResolvable(base, Upserted(base, ov, a), op.key, op.value);
    hide ObjectResolvable, RefundDelta, Upserted, WithSlot, GetState, GetCommittedState;
  }

  lemma CleanKeepsResolvable(base: Base, ov: Overlay, deleteEmpty: bool, a: Address)
    requires Resolvable(base, ov) && a in Apply(base, ov, CleanDelete(deleteEmpty)).objects
    ensures ObjectResolvable(base, Apply(base, ov, CleanDelete(deleteEmpty)).objects[a])
  {
    assert ObjectResolvable(base, ov.objects[a]);
  }

  lemma OneKeepsResolvable(base: Base, ov: Overlay, op: Op, a: Address)
    requires WellFormed(base) && Resolvable(base, ov) && a in Apply(base, ov, op).objects
    ensures ObjectResolvable(base, Apply(base, ov, op).objects[a])
  {
    hide WellFormed, Known, CodeKnown, RefundDelta;
    UpsertedResolvable(base, ov, a);
    if op.SetStorage? || op.SetState? {
      StorageKeepsResolvable(base, ov, op, a);
    } else if op.CleanDelete? {
      CleanKeepsResolvable(base, ov, op.deleteEmpty, a);
    } else if a in ov.objects {
      assert ObjectResolvable(base, ov.objects[a]);
    }
    hide Resolvable, WithSlot, ApplySetStorage, CleanObjects;
  }

  /** Operations invent neither a storage root nor a code hash. */
  lemma ApplyKeepsResolvable(base: Base, ov: Overlay, op: Op)
    requires WellFormed(base) && Resolvable(base, ov)
    ensures Resolvable(base, Apply(base, ov, op))
  {
    hide WellFormed, Apply;
    forall a | a in Apply(base, ov, op).objects
      ensures ObjectResolvable(base, Apply(base, ov, op).objects[a])
    {
      OneKeepsResolvable(base, ov, op, a);
    }
  }

  lemma {:induction false} RunKeepsResolvable(base: Base, j: Journal, cs: seq<Command>)
    requires WellFormed(base) && CanRun(base, j, cs)
    requires Resolvable(base, j.current) && forall i :: 0 <= i < |j.saved| ==> Resolvable(base, j.saved[i])
    ensures Resolvable(base, Exec(base, j, cs).current)
    decreases |cs|
  {
    if cs != [] {
      if cs[0].Do? {
        ApplyKeepsResolvable(base, j.current, cs[0].op);
      }
      RunKeepsResolvable(base, Step(base, j, cs[0]), cs[1..]);
    }
  }

  // ---------------------------------------------------------------------------
  // Reading back
  // ---------------------------------------------------------------------------

  lemma {:induction false} UntouchedSlot(trie: map<Word, Word>, entries: seq<StorageEntry>, k: Word)
    requires forall i :: 0 <= i < |entries| ==> entries[i].key != k
    ensures k in ApplyStorage(trie, entries) <==> k in trie
    ensures k in trie ==> ApplyStorage(trie, entries)[k] == trie[k]
  {
    if entries != [] {
      UntouchedSlot(trie, entries[..|entries| - 1], k);
    }
  }

  lemma {:induction false} WrittenSlot(trie: map<Word, Word>, entries: seq<StorageEntry>, i: nat)
    requires DistinctKeys(entries) && i < |entries|
    ensures var t, e := ApplyStorage(trie, entries), entries[i];
            if e.deleted then e.key !in t else e.key in t && t[e.key] == e.val
  {
    var n := |entries| - 1;
    if i < n {
      WrittenSlot(trie, entries[..n], i);
      assert entries[i].key != entries[n].key;
    }
  }

  lemma {:induction false} UntouchedAccount(base: Base, objs: seq<CommitObject>, a: Address)
    requires forall i :: 0 <= i < |objs| ==> objs[i].address != a
    ensures a in CommitAll(base, objs).accounts <==> a in base.accounts
    ensures a in base.accounts ==> CommitAll(base, objs).accounts[a] == base.accounts[a]
  {
    if objs != [] {
      UntouchedAccount(base, objs[..|objs| - 1], a);
    }
  }

  lemma {:induction false} TriesGrow(base: Base, objs: seq<CommitObject>)
    ensures base.tries <= CommitAll(base, objs).tries
  {
    if objs != [] {
      TriesGrow(base, objs[..|objs| - 1]);
    }
  }

  lemma {:induction false} ApplyStorageNoZeros(trie: map<Word, Word>, entries: seq<StorageEntry>)
    requires NoZeros(trie) && forall i :: 0 <= i < |entries| && !entries[i].deleted ==> entries[i].val != ZERO_WORD
    ensures NoZeros(ApplyStorage(trie, entries))
  {
    if entries != [] {
      ApplyStorageNoZeros(trie, entries[..|entries| - 1]);
    }
  }

  /** Every entry that is not a deletion has a value other than zero. */
  ghost predicate EntriesProper(objs: seq<CommitObject>)
  {
    forall i, j :: 0 <= i < |objs| && 0 <= j < |objs[i].storage| && !objs[i].storage[j].deleted ==>
      objs[i].storage[j].val != ZERO_WORD
  }

  lemma ListIsProper(base: Base, ov: Overlay, objs: seq<CommitObject>)
    requires Resolvable(base, ov) && ListsObjects(objs, ov.objects)
    ensures EntriesProper(objs)
  {
    forall i, j | 0 <= i < |objs| && 0 <= j < |objs[i].storage| && !objs[i].storage[j].deleted
      ensures objs[i].storage[j].val != ZERO_WORD
    {
      var o := ov.objects[objs[i].address];
      assert Describes(objs[i], o) && ObjectResolvable(base, o);
    }
  }

  lemma {:induction false} CommitKeepsTriesProper(base: Base, objs: seq<CommitObject>)
    requires TriesProper(base) && EntriesProper(objs)
    ensures TriesProper(CommitAll(base, objs))
  {
    if objs != [] {
      var n := |objs| - 1;
      assert EntriesProper(objs[..n]);
      CommitKeepsTriesProper(base, objs[..n]);
      var before := CommitAll(base, objs[..n]);
      assert NoZeros(OpenTrie(before, objs[n].root));
      ApplyStorageNoZeros(OpenTrie(before, objs[n].root), objs[n].storage);
    }
  }

  /** The root an object's storage gets. */
  function NewRoot(base: Base, c: CommitObject): Root
  {
    Root(ApplyStorage(OpenTrie(base, c.root), c.storage))
  }

  lemma {:induction false} WrittenAccount(base: Base, objs: seq<CommitObject>, i: nat)
    requires DistinctAddresses(objs) && i < |objs| && Known(base, objs[i].root)
    ensures var b, c := CommitAll(base, objs), objs[i];
            if c.deleted then c.address !in b.accounts
            else
              && c.address in b.accounts
              && b.accounts[c.address] == Account(c.nonce, Abs(c.balance), NewRoot(base, c), c.codeHash)
              && NewRoot(base, c) in b.tries
  {
    var n := |objs| - 1;
    if i < n {
      WrittenAccount(base, objs[..n], i);
      assert objs[i].address != objs[n].address;
    } else {
      TriesGrow(base, objs[..n]);
    }
  }

  /** A slot of the new trie reads as the object's slot did. */
  lemma SlotReadsBack(base: Base, c: CommitObject, o: Object, after: Base, k: Word)
    requires Describes(c, o) && !o.deleted && Known(base, o.account.root)
    requires NewRoot(base, c) in after.tries
    ensures GetStorage(after, NewRoot(base, c), k) == SlotOf(base, o, k)
  {
    var trie := OpenTrie(base, o.account.root);
    if o.storage.Some? && k in o.storage.value {
      var i :| 0 <= i < |c.storage| && c.storage[i].key == k;
      WrittenSlot(trie, c.storage, i);
    } else {
      UntouchedSlot(trie, c.storage, k);
    }
  }

  /** The two states answer every read of this address the same. */
  ghost predicate ReadsAgree(b1: Base, ov1: Overlay, b2: Base, ov2: Overlay, a: Address)
  {
    && Exist(b1, ov1, a) == Exist(b2, ov2, a)
    && GetBalance(b1, ov1, a) == GetBalance(b2, ov2, a)
    && GetNonce(b1, ov1, a) == GetNonce(b2, ov2, a)
    && GetCodeHash(b1, ov1, a) == GetCodeHash(b2, ov2, a)
    && GetCode(b1, ov1, a) == GetCode(b2, ov2, a)
    && forall k :: GetState(b1, ov1, a, k) == GetState(b2, ov2, a, k)
  }

  // ---------------------------------------------------------------------------
  // Codes
  // ---------------------------------------------------------------------------

  predicate StoresCode(c: CommitObject) { !c.deleted && c.dirtyCode }

  ghost predicate Truthful(objs: seq<CommitObject>)
  {
    forall i :: 0 <= i < |objs| && StoresCode(objs[i]) ==> objs[i].codeHash == Keccak(objs[i].code)
  }

  /** A stored code is found under its hash, whatever else is committed. */
  lemma {:induction false} CommitStoresCode(base: Base, objs: seq<CommitObject>, i: nat)
    requires Truthful(objs) && i < |objs| && StoresCode(objs[i])
    ensures var codes, c := CommitAll(base, objs).codes, objs[i];
            c.codeHash in codes && codes[c.codeHash] == c.code
  {
    var n := |objs| - 1;
    if i < n {
      CommitStoresCode(base, objs[..n], i);
    }
  }

  /** No code is lost or replaced. */
  lemma {:induction false} CommitKeepsCodes(base: Base, objs: seq<CommitObject>)
    requires CodesTrue(base) && Truthful(objs)
    ensures CodesTrue(CommitAll(base, objs))
    ensures forall d :: d in base.codes ==>
              d in CommitAll(base, objs).codes && CommitAll(base, objs).codes[d] == base.codes[d]
  {
    if objs != [] {
      CommitKeepsCodes(base, objs[..|objs| - 1]);
    }
  }

  /** Nothing but the codes of the listed objects is added. */
  lemma {:induction false} NewCodesAreListed(base: Base, objs: seq<CommitObject>, d: Digest) returns (i: nat)
    requires d in CommitAll(base, objs).codes && d !in base.codes
    ensures i < |objs| && StoresCode(objs[i]) && objs[i].codeHash == d
  {
    i := |objs| - 1;
    if !(StoresCode(objs[i]) && objs[i].codeHash == d) {
      i := NewCodesAreListed(base, objs[..i], d);
    }
  }

  lemma ListIsTruthful(base: Base, ov: Overlay, objs: seq<CommitObject>)
    requires Resolvable(base, ov) && ListsObjects(objs, ov.objects)
    ensures Truthful(objs)
  {
    hide ListsStorage;
  }

  /** What a commit does to the stored codes: each code set in the transaction for an account
      that is still there is stored under the account's code hash, old codes stay, and nothing
      else is added. */
  lemma CommitCodes(base: Base, ov: Overlay, objs: seq<CommitObject>)
    requires WellFormed(base) && Resolvable(base, ov) && ListsObjects(objs, ov.objects)
    ensures CodesCommitted(base, ov, CommitAll(base, objs).codes)
    ensures CodesTrue(CommitAll(base, objs))
  {
    ListIsTruthful(base, ov, objs);
    CommitKeepsCodes(base, objs);
    var codes := CommitAll(base, objs).codes;
    forall a: Address | GetSetCode(base, ov, a).Some?
      ensures StoredAs(codes, GetCodeHash(base, ov, a), GetSetCode(base, ov, a).value)
    {
      var i :| 0 <= i < |objs| && objs[i].address == a;
      CommitStoresCode(base, objs, i);
    }
    forall d | d in codes && d !in base.codes
      ensures exists a: Address :: GetSetCode(base, ov, a) == Some(codes[d])
    {
      var i := NewCodesAreListed(base, objs, d);
      CommitStoresCode(base, objs, i);
      assert GetSetCode(base, ov, objs[i].address) == Some(codes[d]);
    }
  }

  predicate StoredAs(codes: map<Digest, seq<Byte>>, hash: Digest, code: seq<Byte>)
  {
    hash == Keccak(code) && hash in codes && codes[hash] == code
  }

  ghost predicate CodesCommitted(base: Base, ov: Overlay, codes: map<Digest, seq<Byte>>)
  {
    && (forall a: Address :: GetSetCode(base, ov, a).Some? ==>
          StoredAs(codes, GetCodeHash(base, ov, a), GetSetCode(base, ov, a).value))
    && (forall d :: d in base.codes ==> d in codes && codes[d] == base.codes[d])
    && (forall d :: d in codes && d !in base.codes ==>
          exists a: Address :: GetSetCode(base, ov, a) == Some(codes[d]))
  }

  /** Reading a code gives the bytes that hash to the account's code hash. */
  lemma CodeMatchesHash(base: Base, ov: Overlay, a: Address)
    requires WellFormed(base) && Resolvable(base, ov) && Exist(base, ov, a)
    ensures Keccak(GetCode(base, ov, a)) == GetCodeHash(base, ov, a)
  {
  }

  /** And it stays so over a commit: the same bytes are read from the new base. */
  lemma CommitReadsCode(base: Base, ov: Overlay, objs: seq<CommitObject>, a: Address)
    requires WellFormed(base) && Resolvable(base, ov) && ListsObjects(objs, ov.objects)
    requires GetCodeHash(CommitAll(base, objs), EMPTY_OVERLAY, a) == GetCodeHash(base, ov, a)
    ensures GetCode(CommitAll(base, objs), EMPTY_OVERLAY, a) == GetCode(base, ov, a)
  {
    CommitCodes(base, ov, objs);
    if Exist(base, ov, a) {
      CodeMatchesHash(base, ov, a);
    }
    hide CommitAll, ListsObjects;
    var codes := CommitAll(base, objs).codes;
    assert GetSetCode(CommitAll(base, objs), EMPTY_OVERLAY, a) == None;
    var hash := GetCodeHash(base, ov, a);
    hide GetCodeHash, GetSetCode, Lookup, Resolvable;
    if hash !in base.codes && hash in codes {
      assert hash == Keccak(codes[hash]);
    }
  }

  lemma CommitReadsAccount(base: Base, ov: Overlay, objs: seq<CommitObject>, a: Address)
    requires Resolvable(base, ov) && ListsObjects(objs, ov.objects)
    ensures var after := CommitAll(base, objs);
            && Exist(after, EMPTY_OVERLAY, a) == Exist(base, ov, a)
            && GetBalance(after, EMPTY_OVERLAY, a) == GetBalance(base, ov, a)
            && GetNonce(after, EMPTY_OVERLAY, a) == GetNonce(base, ov, a)
            && GetCodeHash(after, EMPTY_OVERLAY, a) == GetCodeHash(base, ov, a)
  {
    hide CodeResolvable, ListsStorage, CommitAll;
    if a in ov.objects {
      var i :| 0 <= i < |objs| && objs[i].address == a;
      WrittenAccount(base, objs, i);
    } else {
      UntouchedAccount(base, objs, a);
    }
  }

  lemma CommitReadsSlot(base: Base, ov: Overlay, objs: seq<CommitObject>, a: Address, k: Word)
    requires WellFormed(base) && Resolvable(base, ov) && ListsObjects(objs, ov.objects)
    ensures GetState(CommitAll(base, objs), EMPTY_OVERLAY, a, k) == GetState(base, ov, a, k)
  {
    hide CodeResolvable, CodeKnown, CodesTrue, ListsStorage, CommitAll;
    TriesGrow(base, objs);
    if a in ov.objects {
      var i :| 0 <= i < |objs| && objs[i].address == a;
      WrittenAccount(base, objs, i);
      if !ov.objects[a].deleted {
        SlotReadsBack(base, objs[i], ov.objects[a], CommitAll(base, objs), k);
      }
    } else {
      UntouchedAccount(base, objs, a);
    }
  }

  /** Committing the overlay's objects to the base gives a snapshot that, with nothing on
      top of it, reads as the overlay over the old base does. */
  lemma CommitReadsAsOverlay(base: Base, ov: Overlay, objs: seq<CommitObject>, a: Address)
    requires WellFormed(base) && Resolvable(base, ov)
    requires ListsObjects(objs, ov.objects)
    ensures ReadsAgree(CommitAll(base, objs), EMPTY_OVERLAY, base, ov, a)
  {
    hide WellFormed, Resolvable, ListsObjects, CommitAll, Exist, GetBalance, GetNonce, GetCodeHash, GetCode, GetState;
    CommitReadsAccount(base, ov, objs, a);
    CommitReadsCode(base, ov, objs, a);
    forall k
      ensures GetState(CommitAll(base, objs), EMPTY_OVERLAY, a, k) == GetState(base, ov, a, k)
    {
      CommitReadsSlot(base, ov, objs, a, k);
    }
  }

  lemma CommittedIsKnown(base: Base, ov: Overlay, objs: seq<CommitObject>, a: Address)
    requires WellFormed(base) && Resolvable(base, ov) && ListsObjects(objs, ov.objects)
    requires a in CommitAll(base, objs).accounts
    ensures var after := CommitAll(base, objs);
            Known(after, after.accounts[a].root) && CodeKnown(after, after.accounts[a].codeHash)
  {
    TriesGrow(base, objs);
    CommitCodes(base, ov, objs);
    hide ListsStorage, CommitAll, CodesTrue, TriesProper, SlotsProper;
    if a in ov.objects {
      var i :| 0 <= i < |objs| && objs[i].address == a;
      WrittenAccount(base, objs, i);
      assert ObjectResolvable(base, ov.objects[a]);
      if ov.objects[a].dirtyCode && !ov.objects[a].deleted {
        assert GetSetCode(base, ov, a).Some?;
      }
    } else {
      UntouchedAccount(base, objs, a);
    }
  }

  /** The committed snapshot is well formed again, so the next block can start from it. */
  lemma CommitKeepsWellFormed(base: Base, ov: Overlay, objs: seq<CommitObject>)
    requires WellFormed(base) && Resolvable(base, ov)
    requires ListsObjects(objs, ov.objects)
    ensures WellFormed(CommitAll(base, objs))
  {
    var after := CommitAll(base, objs);
    CommitCodes(base, ov, objs);
    ListIsProper(base, ov, objs);
    CommitKeepsTriesProper(base, objs);
    hide ListsObjects, CommitAll, Resolvable, CodesTrue, Known, CodeKnown, CodesCommitted, TriesProper;
    forall a | a in after.accounts
      ensures Known(after, after.accounts[a].root) && CodeKnown(after, after.accounts[a].codeHash)
    {
      CommittedIsKnown(base, ov, objs, a);
    }
  }

  /** Storage roots are canonical: in well-formed states, accounts whose slots read the same have
      the same root, whatever writes led there. */
  lemma RootsAreCanonical(base: Base, base': Base, a: Address, a': Address)
    requires WellFormed(base) && WellFormed(base') && a in base.accounts && a' in base'.accounts
    requires forall k :: GetState(base, EMPTY_OVERLAY, a, k) == GetState(base', EMPTY_OVERLAY, a', k)
    ensures base.accounts[a].root == base'.accounts[a'].root
  {
    var root, root' := base.accounts[a].root, base'.accounts[a'].root;
    forall k
      ensures k in root.contents <==> k in root'.contents
      ensures k in root.contents ==> root.contents[k] == root'.contents[k]
    {
      assert GetState(base, EMPTY_OVERLAY, a, k) == GetState(base', EMPTY_OVERLAY, a', k);
      assert GetState(base, EMPTY_OVERLAY, a, k) == if k in root.contents then root.contents[k] else ZERO_WORD;
      assert GetState(base', EMPTY_OVERLAY, a', k) == if k in root'.contents then root'.contents[k] else ZERO_WORD;
    }
    assert root.contents == root'.contents;
  }

  /** After the clean-up and commit, suicided accounts and, if asked, touched empty accounts
      are gone, and every other overlay account is still there. */
  lemma CommitDropsDoomed(base: Base, ov: Overlay, deleteEmpty: bool, objs: seq<CommitObject>, a: Address)
    requires WellFormed(base) && Resolvable(base, ov)
    requires ListsObjects(objs, CleanObjects(ov.objects, deleteEmpty))
    requires a in ov.objects
    ensures Exist(CommitAll(base, objs), EMPTY_OVERLAY, a)
            <==> !ov.objects[a].deleted && !Doomed(ov.objects[a], deleteEmpty)
  {
    var clean := Apply(base, ov, CleanDelete(deleteEmpty));
    ApplyKeepsResolvable(base, ov, CleanDelete(deleteEmpty));
    CommitReadsAsOverlay(base, clean, objs, a);
  }

  /** Any run from a new transaction, then Commit: the committed snapshot reads, everywhere,
      as the cleaned overlay did, and is a well-formed base for the next block. */
  lemma CommitOfAnyRun(base: Base, cs: seq<Command>, deleteEmpty: bool, objs: seq<CommitObject>)
    requires WellFormed(base)
    requires CanRun(base, Journal(EMPTY_OVERLAY, [], []), cs)
    requires var ov := Exec(base, Journal(EMPTY_OVERLAY, [], []), cs).current;
             ListsObjects(objs, CleanObjects(ov.objects, deleteEmpty))
    ensures var ov := Apply(base, Exec(base, Journal(EMPTY_OVERLAY, [], []), cs).current, CleanDelete(deleteEmpty));
            forall a :: ReadsAgree(CommitAll(base, objs), EMPTY_OVERLAY, base, ov, a)
    ensures WellFormed(CommitAll(base, objs))
  {
    var j := Exec(base, Journal(EMPTY_OVERLAY, [], []), cs);
    RunKeepsResolvable(base, Journal(EMPTY_OVERLAY, [], []), cs);
    var ov := Apply(base, j.current, CleanDelete(deleteEmpty));
    ApplyKeepsResolvable(base, j.current, CleanDelete(deleteEmpty));
    forall a
      ensures ReadsAgree(CommitAll(base, objs), EMPTY_OVERLAY, base, ov, a)
    {
      CommitReadsAsOverlay(base, ov, objs, a);
    }
    CommitKeepsWellFormed(base, ov, objs);
  }
}
