/** Reading codes through the cache of a transaction: any run of operations, snapshots and
    reverts with code reads in between, and when a read returns the code of the account. */
module CodeReads {
  import opened Wrappers
  import opened Words
  import opened WorldState
  import opened StateCommit

  /** A read may push any entries out of the cache. */
  datatype Act = Perform(c: Command) | ReadCode(a: Address, dropped: set<Address>)

  /** The journal, the cached codes, and the code hash each account had when its code was
      cached. */
  datatype Reader = Reader(j: Journal, entries: map<Address, seq<Byte>>, hashes: map<Address, Digest>)

  const NEW_READER := Reader(Journal(EMPTY_OVERLAY, [], []), map[], map[])

  function HashesAfter(base: Base, r: Reader, a: Address, dropped: set<Address>): map<Address, Digest>
  {
    var ov := r.j.current;
    if Exist(base, ov, a) && GetSetCode(base, ov, a).None? && a !in r.entries
    then (r.hashes - dropped)[a := GetCodeHash(base, ov, a)] else r.hashes
  }

  predicate CanAct(base: Base, r: Reader, acts: seq<Act>)
    decreases |acts|
  {
    acts == [] || (&& (acts[0].Perform? ==> Enabled(r.j, acts[0].c))
                   && CanAct(base, ActStep(base, r, acts[0]), acts[1..]))
  }

  function ActStep(base: Base, r: Reader, act: Act): Reader
    requires act.Perform? ==> Enabled(r.j, act.c)
  {
    match act
    case Perform(c) => r.(j := Step(base, r.j, c))
    case ReadCode(a, dropped) =>
      r.(entries := EntriesAfter(base, r.j.current, r.entries, a, dropped), hashes := HashesAfter(base, r, a, dropped))
  }

  function ActRun(base: Base, r: Reader, acts: seq<Act>): Reader
    requires CanAct(base, r, acts)
    decreases |acts|
  {
    if acts == [] then r else ActRun(base, ActStep(base, r, acts[0]), acts[1..])
  }

  // ---------------------------------------------------------------------------
  // What the cache holds
  // ---------------------------------------------------------------------------

  ghost predicate CacheTrue(base: Base, entries: map<Address, seq<Byte>>, hashes: map<Address, Digest>)
  {
    && entries.Keys == hashes.Keys
    && forall a :: a in entries ==> CodeKnown(base, hashes[a]) && entries[a] == StoredCode(base, hashes[a])
  }

  ghost predicate ReaderOk(base: Base, r: Reader)
  {
    && Resolvable(base, r.j.current) && (forall i :: 0 <= i < |r.j.saved| ==> Resolvable(base, r.j.saved[i]))
    && CacheTrue(base, r.entries, r.hashes)
  }

  lemma HashKnown(base: Base, ov: Overlay, a: Address)
    requires WellFormed(base) && Resolvable(base, ov) && Exist(base, ov, a) && GetSetCode(base, ov, a).None?
    ensures CodeKnown(base, GetCodeHash(base, ov, a))
  {
    if a in ov.objects {
      assert ObjectResolvable(base, ov.objects[a]);
    }
  }

  lemma ActKeepsOk(base: Base, r: Reader, act: Act)
    requires WellFormed(base) && ReaderOk(base, r) && (act.Perform? ==> Enabled(r.j, act.c))
    ensures ReaderOk(base, ActStep(base, r, act))
  {
    hide Resolvable, WellFormed, Apply;
    if act.Perform? {
      if act.c.Do? {
        ApplyKeepsResolvable(base, r.j.current, act.c.op);
      }
    } else if Exist(base, r.j.current, act.a) && GetSetCode(base, r.j.current, act.a).None? {
      HashKnown(base, r.j.current, act.a);
    }
  }

  lemma {:induction false} RunKeepsOk(base: Base, r: Reader, acts: seq<Act>)
    requires WellFormed(base) && ReaderOk(base, r) && CanAct(base, r, acts)
    ensures ReaderOk(base, ActRun(base, r, acts))
    decreases |acts|
  {
    if acts != [] {
      ActKeepsOk(base, r, acts[0]);
      hide ReaderOk, WellFormed;
      RunKeepsOk(base, ActStep(base, r, acts[0]), acts[1..]);
    }
  }

  /** The account's code hash is no longer the one it had when its code was cached. */
  predicate Outdated(base: Base, r: Reader, a: Address)
  {
    && GetSetCode(base, r.j.current, a).None?
    && a in r.hashes && r.hashes[a] != GetCodeHash(base, r.j.current, a)
  }

  lemma StoredCodeHash(base: Base, hash: Digest)
    requires CodesTrue(base) && CodeKnown(base, hash)
    ensures Keccak(StoredCode(base, hash)) == hash
  {
  }

  /** After any run, reading the code of an account gives bytes that hash to its code hash exactly
      when it has not got another code hash since its code was cached. */
  lemma CodeReadRightIff(base: Base, acts: seq<Act>, a: Address)
    requires WellFormed(base) && CanAct(base, NEW_READER, acts)
    requires Exist(base, ActRun(base, NEW_READER, acts).j.current, a)
    ensures var r := ActRun(base, NEW_READER, acts);
            Keccak(CodeRead(base, r.j.current, r.entries, a)) == GetCodeHash(base, r.j.current, a)
            <==> !Outdated(base, r, a)
  {
    RunKeepsOk(base, NEW_READER, acts);
    var r := ActRun(base, NEW_READER, acts);
    CodeMatchesHash(base, r.j.current, a);
    hide ActRun, CanAct, Resolvable, GetCode, Exist, GetCodeHash, GetSetCode, CodeKnown, StoredCode;
    if a in r.entries {
      StoredCodeHash(base, r.hashes[a]);
    }
  }

  // ---------------------------------------------------------------------------
  // Runs in which no account starts over
  // ---------------------------------------------------------------------------

  /** No account is replaced or cleaned away. */
  predicate Settled(base: Base, r: Reader, act: Act)
  {
    act.Perform? && act.c.Do? ==>
      match act.c.op
      case CreateAccount(_) => false
      case CleanDelete(_) => false
      case AddSealingReward(a, _) => !HasSuicided(base, r.j.current, a)
      case _ => true
  }

  predicate SettledRun(base: Base, r: Reader, acts: seq<Act>)
    requires CanAct(base, r, acts)
    decreases |acts|
  {
    acts == [] || (Settled(base, r, acts[0]) && SettledRun(base, ActStep(base, r, acts[0]), acts[1..]))
  }

  function HomeHash(base: Base, a: Address): Digest
  {
    if a in base.accounts then base.accounts[a].codeHash else EMPTY_CODE_HASH
  }

  /** An account without a new code has the code hash it started with. */
  ghost predicate AtHome(base: Base, ov: Overlay)
  {
    forall a :: a in ov.objects ==>
      !ov.objects[a].deleted && (ov.objects[a].dirtyCode || ov.objects[a].account.codeHash == HomeHash(base, a))
  }

  ghost predicate AllAtHome(base: Base, r: Reader)
  {
    && AtHome(base, r.j.current) && (forall i :: 0 <= i < |r.j.saved| ==> AtHome(base, r.j.saved[i]))
    && forall a :: a in r.hashes ==> r.hashes[a] == HomeHash(base, a)
  }

  lemma OpKeepsAtHome(base: Base, r: Reader, op: Op)
    requires AtHome(base, r.j.current) && Settled(base, r, Perform(Do(op)))
    ensures AtHome(base, Apply(base, r.j.current, op))
  {
    hide RefundDelta, CleanObjects;
  }

  lemma ActKeepsAtHome(base: Base, r: Reader, act: Act)
    requires AllAtHome(base, r) && Settled(base, r, act) && (act.Perform? ==> Enabled(r.j, act.c))
    ensures AllAtHome(base, ActStep(base, r, act))
  {
    if act.Perform? {
      hide AtHome, Apply;
      if act.c.Do? {
        OpKeepsAtHome(base, r, act.c.op);
      }
    }
  }

  lemma {:induction false} SettledKeepsAtHome(base: Base, r: Reader, acts: seq<Act>)
    requires AllAtHome(base, r) && CanAct(base, r, acts) && SettledRun(base, r, acts)
    ensures AllAtHome(base, ActRun(base, r, acts))
    decreases |acts|
  {
    if acts != [] {
      ActKeepsAtHome(base, r, acts[0]);
      hide AllAtHome, Settled;
      SettledKeepsAtHome(base, ActStep(base, r, acts[0]), acts[1..]);
    }
  }

  /** As long as no account starts over, every code read is right. */
  lemma SettledReadsAreRight(base: Base, acts: seq<Act>, a: Address)
    requires WellFormed(base) && CanAct(base, NEW_READER, acts) && SettledRun(base, NEW_READER, acts)
    requires Exist(base, ActRun(base, NEW_READER, acts).j.current, a)
    ensures var r := ActRun(base, NEW_READER, acts);
            Keccak(CodeRead(base, r.j.current, r.entries, a)) == GetCodeHash(base, r.j.current, a)
  {
    CodeReadRightIff(base, acts, a);
    SettledKeepsAtHome(base, NEW_READER, acts);
    hide ActRun, CanAct, SettledRun, CodeRead, WellFormed;
  }

  // ---------------------------------------------------------------------------
  // A code that outlives its account
  // ---------------------------------------------------------------------------

  /** A contract whose code was read is created anew: its code hash is that of no code, and a
      read still gives the old code. */
  lemma CodeOutlivesAccount(base: Base, a: Address, code: seq<Byte>)
    requires WellFormed(base) && a in base.accounts && base.accounts[a].codeHash == Keccak(code) && code != []
    ensures var acts := [ReadCode(a, {}), Perform(Do(CreateAccount(a)))];
            && CanAct(base, NEW_READER, acts)
            && var r := ActRun(base, NEW_READER, acts);
            && GetCodeHash(base, r.j.current, a) == EMPTY_CODE_HASH
            && CodeRead(base, r.j.current, r.entries, a) == code
  {
    var acts := [ReadCode(a, {}), Perform(Do(CreateAccount(a)))];
    var r1 := ActStep(base, NEW_READER, acts[0]);
    assert r1.entries == map[a := code];
    assert acts[1..] == [acts[1]] && acts[1..][1..] == [];
    var r2 := ActStep(base, r1, acts[1]);
    assert CanAct(base, r2, []) && ActRun(base, r2, []) == r2;
    assert CanAct(base, r1, [acts[1]]);
  }
}
